/** The database side of task synchronisation: the loops of `SynchronizeAssignmentTasks`
    (database/gormdb_tasks.go:33-99) and the issues created for new tasks on the group repositories
    (assignments/tasks.go:63-124). Every access to the database and every request to the code host may fail. */
module TaskStore {
  import opened Sequences
  import opened TaskSync

  datatype Issue = Issue(repo: nat, task: nat, number: nat)
  datatype Repository = Repository(id: nat, isGroup: bool)
  type Issues = map<nat, Issue>

  /** The issues left when the tasks that are in `before` but not in `after` have been removed. */
  function Kept(issues: Issues, before: Rows, after: Rows): Issues {
    map i | i in issues && !(issues[i].task in before && issues[i].task !in after) :: issues[i]
  }

  /** Rows not yet seen are as they were: the query for an assignment finds its original rows. */
  lemma FindsOriginals(course: Course, repo: Repo, before: Rows, seen: set<nat>, p: Pass, a: nat)
    requires PassOk(before, course, repo, seen, p) && Keyed(before)
    requires seen !! RowsOf(before, a)
    ensures RowsOf(p.rows, a) == RowsOf(before, a)
  {
    hide OneSurvives, PendingOk, ReportOk;
  }

  /** The rows of an assignment seen so far, when those in `left` remain. */
  function SeenRows(before: Rows, seen: set<nat>, a: nat, left: set<nat>): set<nat>
  {
    seen + (RowsOf(before, a) - left)
  }

  lemma NextRow(course: Course, repo: Repo, before: Rows, seen: set<nat>, p: Pass, a: nat, left: set<nat>, id: nat)
    requires InputOk(course, repo) && Keyed(before) && a in course
    requires PassOk(before, course, repo, SeenRows(before, seen, a, left), p)
    requires id in left && left <= RowsOf(before, a) && seen !! RowsOf(before, a)
    ensures id in before && id in p.rows && p.rows[id] == before[id]
    ensures before[id].assignment == a && before[id].id == id
    ensures PassOk(before, course, repo, SeenRows(before, seen, a, left - {id}), SyncRow(course, p, id))
  {
    hide OneSurvives, PendingOk, ReportOk;
    SyncRowKeepsPass(before, course, repo, SeenRows(before, seen, a, left), p, id);
    assert SeenRows(before, seen, a, left - {id}) == SeenRows(before, seen, a, left) + {id};
  }

  /** One new task of the assignment for each of the given names. */
  ghost predicate NewTasks(wanted: map<string, Task>, a: nat, names: set<string>, tasks: seq<Task>) {
    && names <= wanted.Keys
    && (forall t :: t in tasks <==> t.assignment == a && t.name in names && t == wanted[t.name].(assignment := a))
    && (forall i, j :: 0 <= i < j < |tasks| ==> tasks[i].name != tasks[j].name)
  }

  lemma NewTasksSnoc(wanted: map<string, Task>, a: nat, names: set<string>, tasks: seq<Task>, n: string)
    requires NewTasks(wanted, a, names, tasks) && n in wanted && n !in names && wanted[n].name == n
    ensures NewTasks(wanted, a, names + {n}, tasks + [wanted[n].(assignment := a)])
  {
  }

  /** The tasks left in the map for an assignment, all of whose rows have been seen, are those to create. */
  lemma CreatedAppend(before: Rows, course: Course, repo: Repo, pending: Repo, done: set<nat>, a: nat,
                      todo: seq<Task>, tasks: seq<Task>)
    requires CreatedOk(before, course, repo, done, todo)
    requires a in course && a !in done
    requires PendingOk(before, course, repo, RowsIn(before, done + {a}), pending)
    requires NewTasks(Wanted(course, pending, a), a, Wanted(course, pending, a).Keys, tasks)
    ensures CreatedOk(before, course, repo, done + {a}, todo + tasks)
  {
  }

  /** The loop over the assignments after those in `done`. */
  ghost predicate Progress(before: Rows, course: Course, repo: Repo, done: set<nat>, p: Pass, todo: seq<Task>) {
    && InputOk(course, repo) && Keyed(before)
    && PassOk(before, course, repo, RowsIn(before, done), p)
    && CreatedOk(before, course, repo, done, todo)
  }

  lemma ProgressStarts(before: Rows, course: Course, repo: Repo)
    requires InputOk(course, repo) && Keyed(before)
    ensures Progress(before, course, repo, {}, Pass(before, repo, []), [])
  {
  }

  lemma ProgressStep(before: Rows, course: Course, repo: Repo, done: set<nat>, p: Pass, q: Pass, a: nat,
                     todo: seq<Task>, tasks: seq<Task>)
    requires Progress(before, course, repo, done, p, todo) && a in course && a !in done
    requires PassOk(before, course, repo, RowsIn(before, done) + RowsOf(before, a), q)
    requires NewTasks(Wanted(course, q.pending, a), a, Wanted(course, q.pending, a).Keys, tasks)
    ensures Progress(before, course, repo, done + {a}, q, todo + tasks)
  {
    assert RowsIn(before, done) + RowsOf(before, a) == RowsIn(before, done + {a});
    CreatedAppend(before, course, repo, q.pending, done, a, todo, tasks);
    hide CreatedOk, NewTasks, RowsSynced, OneSurvives, PendingOk, ReportOk;
  }

  /** What is left in the map is still filed under its name. */
  lemma PendingNamed(before: Rows, course: Course, repo: Repo, seen: set<nat>, p: Pass, a: nat)
    requires InputOk(course, repo) && PassOk(before, course, repo, seen, p) && a in course
    ensures forall n :: n in Wanted(course, p.pending, a) ==> Wanted(course, p.pending, a)[n].name == n
  {
    hide RowsSynced, OneSurvives, ReportOk;
  }

  lemma KeptRowsOk(before: Rows, course: Course, repo: Repo, done: set<nat>, p: Pass, todo: seq<Task>, first: nat)
    requires Progress(before, course, repo, done, p, todo) && RowsOk(before, first)
    ensures RowsOk(p.rows, first)
    ensures p.rows.Keys <= before.Keys
  {
  }

  lemma KeptSame(issues: Issues, before: Rows, kept: Rows, after: Rows, created: seq<Task>, first: nat)
    requires (forall id :: id in before ==> id < first) && kept.Keys <= before.Keys
    requires Inserted(kept, after, created, first)
    ensures Kept(issues, before, after) == Kept(issues, before, kept)
  {
  }

  lemma RowsOkLater(rows: Rows, first: nat, later: nat)
    requires RowsOk(rows, first) && first <= later
    ensures RowsOk(rows, later)
  {
  }

  lemma InsertedRowsOk(kept: Rows, after: Rows, todo: seq<Task>, created: seq<Task>, first: nat)
    requires RowsOk(kept, first) && Inserted(kept, after, created, first) && Stored(todo, created, first)
    ensures RowsOk(after, first + |created|)
  {
    forall id | id in after ensures after[id].id == id && id < first + |created| {
      assert id !in kept ==> after[id] == created[id - first];
    }
  }

  // ---------- issues ----------

  predicate For(i: Issue, repo: nat, task: nat) { i.repo == repo && i.task == task }

  function Groups(repos: seq<Repository>): set<nat> { set r | r in repos && r.isGroup :: r.id }

  function Ids(tasks: seq<Task>): set<nat> { set t | t in tasks :: t.id }

  ghost predicate Includes(made: seq<Issue>, repo: nat, task: nat) {
    exists k :: 0 <= k < |made| && For(made[k], repo, task)
  }

  /** One issue for each of the tasks on each of the repositories. */
  ghost predicate Opened(groups: set<nat>, tasks: set<nat>, made: seq<Issue>) {
    && (forall k :: 0 <= k < |made| ==> made[k].repo in groups && made[k].task in tasks)
    && (forall r, t :: r in groups && t in tasks ==> Includes(made, r, t))
    && (forall j, k :: 0 <= j < k < |made| ==> !For(made[j], made[k].repo, made[k].task))
  }

  /** The issues opened on one repository. */
  ghost predicate OpenedOn(repo: nat, created: seq<Task>, made: seq<Issue>) {
    |made| == |created| && forall k :: 0 <= k < |made| ==> For(made[k], repo, created[k].id)
  }

  ghost predicate DistinctRepos(repos: seq<Repository>) {
    forall j, k :: 0 <= j < k < |repos| ==> repos[j].id != repos[k].id
  }

  ghost predicate DistinctTasks(tasks: seq<Task>) {
    forall j, k :: 0 <= j < k < |tasks| ==> tasks[j].id != tasks[k].id
  }

  lemma IncludesAppend(made: seq<Issue>, more: seq<Issue>, repo: nat, task: nat)
    ensures Includes(made + more, repo, task) <==> Includes(made, repo, task) || Includes(more, repo, task)
  {
    var all := made + more;
    if Includes(made, repo, task) {
      var k :| 0 <= k < |made| && For(made[k], repo, task);
      assert For(all[k], repo, task);
    }
    if Includes(more, repo, task) {
      var k :| 0 <= k < |more| && For(more[k], repo, task);
      assert For(all[|made| + k], repo, task);
    }
  }

  lemma OpenedAppend(groups: set<nat>, r: nat, created: seq<Task>, made: seq<Issue>, more: seq<Issue>)
    requires Opened(groups, Ids(created), made) && DistinctTasks(created) && r !in groups
    requires OpenedOn(r, created, more)
    ensures Opened(groups + {r}, Ids(created), made + more)
  {
    var all := made + more;
    forall x, t | x in groups + {r} && t in Ids(created) ensures Includes(all, x, t) {
      IncludesAppend(made, more, x, t);
      if x == r {
        var k :| 0 <= k < |created| && created[k].id == t;
        assert For(more[k], x, t);
      }
    }
    forall k | 0 <= k < |all| ensures all[k].repo in groups + {r} && all[k].task in Ids(created) {
      if k >= |made| {
        assert created[k - |made|] in created;
      }
    }
  }

  /** The new issues are stored under the next IDs. */
  ghost predicate IssuesAdded(kept: Issues, after: Issues, made: seq<Issue>, first: nat) {
    && (forall k :: k in after <==> k in kept || first <= k < first + |made|)
    && (forall k :: k in kept ==> after[k] == kept[k])
    && (forall k :: 0 <= k < |made| ==> after[first + k] == made[k])
  }

  /** Every group repository has exactly one issue for every task of the course. */
  ghost predicate OneIssueEach(course: Course, rows: Rows, issues: Issues, repos: seq<Repository>) {
    forall r, t :: r in repos && r.isGroup && t in rows && rows[t].assignment in course ==>
      HasOneIssue(issues, r.id, t)
  }

  ghost predicate HasOneIssue(issues: Issues, repo: nat, task: nat) {
    && (exists k :: k in issues && For(issues[k], repo, task))
    && (forall j, k :: j in issues && k in issues && For(issues[j], repo, task) && For(issues[k], repo, task) ==>
         j == k)
  }

  /** No issue is for a task that does not exist. */
  ghost predicate NoDangling(issues: Issues, rows: Rows) { forall k :: k in issues ==> issues[k].task in rows }

  /** The database before and after a synchronisation all of whose requests to the code host succeed. */
  ghost predicate FullSync(course: Course, repo: Repo, before: Rows, after: Rows, created: seq<Task>,
                           updated: seq<Task>, repos: seq<Repository>, issues: Issues, made: seq<Issue>,
                           stored: Issues, first: nat)
  {
    && Synced(course, repo, before, after, created, updated)
    && NoDangling(issues, before) && (forall k :: k in issues ==> k < first)
    && Opened(Groups(repos), Ids(created), made)
    && IssuesAdded(Kept(issues, before, after), stored, made, first)
  }

  lemma CreatedIds(course: Course, repo: Repo, before: Rows, after: Rows, created: seq<Task>, id: nat)
    requires CreatesNew(course, repo, before, after, created) && Keyed(after)
    ensures id in Ids(created) <==> id in after && id !in before
  {
  }

  /** An issue for a task that existed before is an old one, an issue for a new task is a new one. */
  lemma OldOrNew(course: Course, repo: Repo, before: Rows, after: Rows, created: seq<Task>, updated: seq<Task>,
                 repos: seq<Repository>, issues: Issues, made: seq<Issue>, stored: Issues, first: nat, k: nat)
    requires FullSync(course, repo, before, after, created, updated, repos, issues, made, stored, first)
    requires Keyed(after) && k in stored
    ensures stored[k].task in after
    ensures stored[k].task in before ==> k in issues && stored[k] == issues[k]
    ensures stored[k].task !in before ==> first <= k < first + |made| && stored[k] == made[k - first]
  {
    hide Agrees, Survives, CreatesNew, ReportOk, Includes;
    CreatedIds(course, repo, before, after, created, stored[k].task);
    if k !in Kept(issues, before, after) {
      assert stored[first + (k - first)] == made[k - first];
    }
  }

  lemma SomeIssueAfter(course: Course, repo: Repo, before: Rows, after: Rows, created: seq<Task>, updated: seq<Task>,
                       repos: seq<Repository>, issues: Issues, made: seq<Issue>, stored: Issues, first: nat,
                       r: Repository, t: nat)
    requires FullSync(course, repo, before, after, created, updated, repos, issues, made, stored, first)
    requires Keyed(after) && r in repos && r.isGroup && t in after
    requires t in before ==> HasOneIssue(issues, r.id, t)
    ensures exists k :: k in stored && For(stored[k], r.id, t)
  {
    CreatedIds(course, repo, before, after, created, t);
    hide Agrees, Survives, CreatesNew, ReportOk, Synced, NoDangling;
    if t in before {
      var k :| k in issues && For(issues[k], r.id, t);
      assert k in stored && For(stored[k], r.id, t);
    } else {
      assert r.id in Groups(repos);
      assert Includes(made, r.id, t);
      var k :| 0 <= k < |made| && For(made[k], r.id, t);
      assert stored[first + k] == made[k];
    }
  }

  lemma OneIssueAfter(course: Course, repo: Repo, before: Rows, after: Rows, created: seq<Task>, updated: seq<Task>,
                      repos: seq<Repository>, issues: Issues, made: seq<Issue>, stored: Issues, first: nat,
                      r: Repository, t: nat)
    requires FullSync(course, repo, before, after, created, updated, repos, issues, made, stored, first)
    requires Keyed(after) && r in repos && r.isGroup && t in after
    requires t in before ==> HasOneIssue(issues, r.id, t)
    ensures HasOneIssue(stored, r.id, t)
  {
    SomeIssueAfter(course, repo, before, after, created, updated, repos, issues, made, stored, first, r, t);
    forall j, k | j in stored && k in stored && For(stored[j], r.id, t) && For(stored[k], r.id, t) ensures j == k {
      OldOrNew(course, repo, before, after, created, updated, repos, issues, made, stored, first, j);
      OldOrNew(course, repo, before, after, created, updated, repos, issues, made, stored, first, k);
      hide Synced, NoDangling, IssuesAdded, Includes, Groups, Ids;
    }
  }

  /** For a task that was there before, a repository has the issues it had. */
  lemma OldIssuesAfter(before: Rows, after: Rows, issues: Issues, made: seq<Issue>, stored: Issues, first: nat,
                       repo: nat, t: nat)
    requires IssuesAdded(Kept(issues, before, after), stored, made, first)
    requires t in before && t in after && HasOneIssue(stored, repo, t)
    requires forall k :: k in stored && stored[k].task == t ==> k in issues && stored[k] == issues[k]
    ensures HasOneIssue(issues, repo, t)
  {
    var k :| k in stored && For(stored[k], repo, t);
    assert For(issues[k], repo, t);
    forall i, j | i in issues && j in issues && For(issues[i], repo, t) && For(issues[j], repo, t) ensures i == j {
      assert i in Kept(issues, before, after) && j in Kept(issues, before, after);
      assert For(stored[i], repo, t) && For(stored[j], repo, t);
    }
  }

  /** After a synchronisation that succeeds, a group repository has exactly one issue for a task exactly if the
      task is new, or the repository had exactly one before. A repository that misses the issue of a task, say
      because it is younger than the task, never gets it. */
  lemma OneIssueExactlyWhen(course: Course, repo: Repo, before: Rows, after: Rows, created: seq<Task>,
                            updated: seq<Task>, repos: seq<Repository>, issues: Issues, made: seq<Issue>,
                            stored: Issues, first: nat, r: Repository, t: nat)
    requires FullSync(course, repo, before, after, created, updated, repos, issues, made, stored, first)
    requires Keyed(after) && r in repos && r.isGroup && t in after
    ensures HasOneIssue(stored, r.id, t) <==> (t in before ==> HasOneIssue(issues, r.id, t))
  {
    if t in before ==> HasOneIssue(issues, r.id, t) {
      OneIssueAfter(course, repo, before, after, created, updated, repos, issues, made, stored, first, r, t);
    }
    if t in before && HasOneIssue(stored, r.id, t) {
      forall k | k in stored && stored[k].task == t ensures k in issues && stored[k] == issues[k] {
        OldOrNew(course, repo, before, after, created, updated, repos, issues, made, stored, first, k);
      }
      hide Synced, NoDangling, HasOneIssue, Kept;
      OldIssuesAfter(before, after, issues, made, stored, first, r.id, t);
    }
  }

  /** Every group repository has one issue for each task of the course that is there before and after. */
  ghost predicate OldIssuesComplete(course: Course, before: Rows, after: Rows, issues: Issues, repos: seq<Repository>) {
    forall r, t :: r in repos && r.isGroup && t in before && t in after && after[t].assignment in course ==>
      HasOneIssue(issues, r.id, t)
  }

  /** A synchronisation that succeeds leaves exactly one issue for each group repository and task of the course
      exactly if the repositories had one for each of the tasks that remain; no issue is for a missing task. */
  lemma IssuesCompleteExactlyWhen(course: Course, repo: Repo, before: Rows, after: Rows, created: seq<Task>,
                                  updated: seq<Task>, repos: seq<Repository>, issues: Issues, made: seq<Issue>,
                                  stored: Issues, first: nat)
    requires FullSync(course, repo, before, after, created, updated, repos, issues, made, stored, first)
    requires Keyed(after)
    ensures OneIssueEach(course, after, stored, repos) <==> OldIssuesComplete(course, before, after, issues, repos)
    ensures NoDangling(stored, after)
  {
    forall k | k in stored ensures stored[k].task in after {
      OldOrNew(course, repo, before, after, created, updated, repos, issues, made, stored, first, k);
    }
    forall r, t | r in repos && r.isGroup && t in after
      ensures HasOneIssue(stored, r.id, t) <==> (t in before ==> HasOneIssue(issues, r.id, t))
    {
      OneIssueExactlyWhen(course, repo, before, after, created, updated, repos, issues, made, stored, first, r, t);
    }
    hide FullSync, HasOneIssue;
  }

  /** A repository of another kind gets no issue. */
  lemma NoIssueElsewhere(course: Course, repo: Repo, before: Rows, after: Rows, created: seq<Task>,
                         updated: seq<Task>, repos: seq<Repository>, issues: Issues, made: seq<Issue>,
                         stored: Issues, first: nat, r: Repository, k: nat)
    requires FullSync(course, repo, before, after, created, updated, repos, issues, made, stored, first)
    requires Keyed(after) && DistinctRepos(repos) && r in repos && !r.isGroup && k in stored && stored[k].repo == r.id
    ensures k in issues && stored[k] == issues[k]
  {
    OldOrNew(course, repo, before, after, created, updated, repos, issues, made, stored, first, k);
    NoGroup(repos, r);
    hide Synced, NoDangling, HasOneIssue, Kept, Groups;
  }

  lemma NoGroup(repos: seq<Repository>, r: Repository)
    requires DistinctRepos(repos) && r in repos && !r.isGroup
    ensures r.id !in Groups(repos)
  {
  }

  /** So it keeps exactly one issue per group repository and task. */
  lemma SyncKeepsIssues(course: Course, repo: Repo, before: Rows, after: Rows, created: seq<Task>, updated: seq<Task>,
                        repos: seq<Repository>, issues: Issues, made: seq<Issue>, stored: Issues, first: nat)
    requires FullSync(course, repo, before, after, created, updated, repos, issues, made, stored, first)
    requires Keyed(after) && OneIssueEach(course, before, issues, repos)
    ensures OneIssueEach(course, after, stored, repos) && NoDangling(stored, after)
  {
    IssuesCompleteExactlyWhen(course, repo, before, after, created, updated, repos, issues, made, stored, first);
    OldTasksStay(course, repo, before, after);
    hide HasOneIssue;
  }

  lemma OldTasksStay(course: Course, repo: Repo, before: Rows, after: Rows)
    requires Survives(course, repo, before, after)
    ensures forall t :: t in before && t in after ==> before[t].assignment == after[t].assignment
  {
    forall t | t in before && t in after ensures before[t].assignment == after[t].assignment {
      assert after[t] == before[t].(title := after[t].title, body := after[t].body);
    }
  }

  /** When a request to the code host fails after the tasks have been stored, no issue is: what was complete stays
      complete exactly if no task was created or there is no group repository. */
  lemma FailureLosesIssuesExactlyWhen(course: Course, repo: Repo, before: Rows, after: Rows, created: seq<Task>,
                                      updated: seq<Task>, repos: seq<Repository>, issues: Issues)
    requires Synced(course, repo, before, after, created, updated) && NoDangling(issues, before)
    requires Keyed(after) && OneIssueEach(course, before, issues, repos)
    ensures OneIssueEach(course, after, Kept(issues, before, after), repos) <==>
            created == [] || forall r :: r in repos ==> !r.isGroup
  {
    hide Agrees, ReportOk;
    OldTasksStay(course, repo, before, after);
    var kept := Kept(issues, before, after);
    FirstIsMember(created);
    assert forall t :: t in after && t !in before ==> after[t] in created;
    if created != [] {
      assert !exists k :: k in kept && kept[k].task == created[0].id;
      assert forall r: Repository :: !HasOneIssue(kept, r.id, created[0].id);
    } else {
      forall r, t | r in repos && r.isGroup && t in after && after[t].assignment in course
        ensures HasOneIssue(kept, r.id, t)
      {
        assert t in before && HasOneIssue(issues, r.id, t);
        KeptHasOneIssue(issues, before, after, r.id, t);
      }
    }
  }

  lemma KeptHasOneIssue(issues: Issues, before: Rows, after: Rows, repo: nat, t: nat)
    requires t in after && HasOneIssue(issues, repo, t)
    ensures HasOneIssue(Kept(issues, before, after), repo, t)
  {
    var k :| k in issues && For(issues[k], repo, t);
    assert k in Kept(issues, before, after) && For(Kept(issues, before, after)[k], repo, t);
  }

  /** The tasks created then never get an issue: the next synchronisation with the same repository creates no
      task, so it opens no issue. */
  lemma MissedIssuesStayMissed(course: Course, repo: Repo, before: Rows, after: Rows, created: seq<Task>,
                               updated: seq<Task>, issues: Issues, later: Rows, created2: seq<Task>,
                               updated2: seq<Task>, t: Task)
    requires Synced(course, repo, before, after, created, updated) && NoDangling(issues, before)
    requires Keyed(later) && Synced(course, repo, after, later, created2, updated2)
    requires t in created
    ensures created2 == [] && t.id in later
    ensures forall k :: k in Kept(Kept(issues, before, after), after, later) ==> issues[k].task != t.id
  {
    SecondSyncDoesNothing(course, repo, before, after, created, updated, later, created2, updated2);
    hide Agrees, Survives, ReportOk;
  }

  /** The nested loops of `tasksFromAssignments`. */
  method TasksFromAssignments(parsed: seq<Parsed>) returns (taskMap: Repo)
    ensures taskMap == RepoOf(parsed)
  {
    taskMap := map[];
    for i := 0 to |parsed|
      invariant taskMap == RepoOf(parsed[..i])
    {
      var temp: map<string, Task> := map[];
      for j := 0 to |parsed[i].tasks|
        invariant temp == ByName(parsed[i].tasks[..j])
      {
        assert parsed[i].tasks[..j + 1][..j] == parsed[i].tasks[..j];
        temp := temp[parsed[i].tasks[j].name := parsed[i].tasks[j]];
      }
      assert parsed[i].tasks[..|parsed[i].tasks|] == parsed[i].tasks;
      assert parsed[..i + 1][..i] == parsed[..i];
      taskMap := taskMap[parsed[i].order := temp];
    }
    assert parsed[..|parsed|] == parsed;
  }

  class Store {
    var rows: Rows
    var issues: Issues
    var next: nat
    var nextIssue: nat

    ghost predicate Valid()
      reads this
    {
      RowsOk(rows, next) && forall i :: i in issues ==> i < nextIssue
    }

    /** The body of the loop over existing tasks. */
    method SyncExistingTask(course: Course, id: nat, taskMap: Repo, reported: seq<Task>, ghost before: Rows,
                            ghost initial: Issues)
      returns (pending: Repo, updated: seq<Task>)
      requires id in rows && rows[id].id == id && rows[id].assignment in course && id in before
      requires issues == Kept(initial, before, rows)
      modifies this`rows, this`issues
      ensures Pass(rows, pending, updated) == SyncRow(course, Pass(old(rows), taskMap, reported), id)
      ensures issues == Kept(initial, before, rows)
    {
      pending, updated := taskMap, reported;
      var task, o := rows[id], course[rows[id].assignment];
      if o !in pending || task.name !in pending[o] {
        issues := map i | i in issues && issues[i].task != id :: issues[i];
        rows := rows - {id};
        updated := updated + [MarkDeleted(task)];
      } else {
        var counterpart := pending[o][task.name];
        if HasChanged(task, counterpart) {
          task := task.(title := counterpart.title, body := counterpart.body);
          updated := updated + [task];
          rows := rows[id := task];
        }
        assert task == Refreshed(old(rows)[id], counterpart);
        assert rows == old(rows)[id := task];
        pending := pending[o := pending[o] - {task.name}];
      }
    }

    /** The loop over the existing tasks of one assignment, found in any order. */
    method SyncExisting(course: Course, a: nat, taskMap: Repo, reported: seq<Task>,
                        ghost before: Rows, ghost repo: Repo, ghost seen: set<nat>, ghost initial: Issues)
      returns (pending: Repo, updated: seq<Task>)
      requires InputOk(course, repo) && Keyed(before)
      requires PassOk(before, course, repo, seen, Pass(rows, taskMap, reported))
      requires issues == Kept(initial, before, rows)
      requires a in course && seen !! RowsOf(before, a)
      modifies this`rows, this`issues
      ensures PassOk(before, course, repo, seen + RowsOf(before, a), Pass(rows, pending, updated))
      ensures issues == Kept(initial, before, rows)
    {
      pending, updated := taskMap, reported;
      var left := RowsOf(rows, a);
      FindsOriginals(course, repo, before, seen, Pass(rows, pending, updated), a);
      assert SeenRows(before, seen, a, left) == seen;
      hide PassOk, SyncRow, Kept, InputOk, Keyed;
      while left != {}
        invariant PassOk(before, course, repo, SeenRows(before, seen, a, left), Pass(rows, pending, updated))
        invariant issues == Kept(initial, before, rows)
        invariant left <= RowsOf(before, a)
        decreases left
      {
        hide RowsOf, SeenRows;
        var id :| id in left;
        NextRow(course, repo, before, seen, Pass(rows, pending, updated), a, left, id);
        pending, updated := SyncExistingTask(course, id, pending, updated, before, initial);
        left := left - {id};
      }
      assert SeenRows(before, seen, a, left) == seen + RowsOf(before, a);
    }

    /** The loop over the tasks left in the map for one assignment, in any order. */
    method CollectNew(wanted: map<string, Task>, a: nat) returns (tasks: seq<Task>)
      requires forall n :: n in wanted ==> wanted[n].name == n
      ensures NewTasks(wanted, a, wanted.Keys, tasks)
    {
      tasks := [];
      var left := wanted.Keys;
      while left != {}
        invariant left <= wanted.Keys
        invariant NewTasks(wanted, a, wanted.Keys - left, tasks)
        decreases left
      {
        var n :| n in left;
        NewTasksSnoc(wanted, a, wanted.Keys - left, tasks, n);
        assert wanted.Keys - (left - {n}) == wanted.Keys - left + {n};
        tasks, left := tasks + [wanted[n].(assignment := a)], left - {n};
      }
      assert wanted.Keys - left == wanted.Keys;
    }

    /** The loop that stores the created tasks. */
    method InsertTasks(todo: seq<Task>) returns (created: seq<Task>)
      requires forall id :: id in rows ==> id < next
      modifies this`rows, this`next
      ensures Stored(todo, created, old(next)) && |created| == |todo|
      ensures Inserted(old(rows), rows, created, old(next))
      ensures next == old(next) + |todo|
    {
      created := [];
      for i := 0 to |todo|
        invariant next == old(next) + i && i == |created|
        invariant Stored(todo, created, old(next))
        invariant Inserted(old(rows), rows, created, old(next))
      {
        var t := todo[i].(id := next);
        created, rows, next := created + [t], rows[next := t], next + 1;
      }
    }

    /** The body of the loop over the assignments of the course. */
    method SyncAssignment(course: Course, a: nat, taskMap: Repo, reported: seq<Task>, collected: seq<Task>,
                          ghost before: Rows, ghost repo: Repo, ghost done: set<nat>, ghost initial: Issues)
      returns (pending: Repo, updated: seq<Task>, todo: seq<Task>)
      requires Progress(before, course, repo, done, Pass(rows, taskMap, reported), collected)
      requires a in course && a !in done
      requires issues == Kept(initial, before, rows)
      modifies this`rows, this`issues
      ensures Progress(before, course, repo, done + {a}, Pass(rows, pending, updated), todo)
      ensures issues == Kept(initial, before, rows)
    {
      hide PassOk, InputOk, CreatedOk, Kept, Keyed, NewTasks;
      ghost var seen, p := RowsIn(before, done), Pass(rows, taskMap, reported);
      assert seen !! RowsOf(before, a);
      hide RowsIn, RowsOf;
      pending, updated := SyncExisting(course, a, taskMap, reported, before, repo, seen, initial);
      ghost var q := Pass(rows, pending, updated);
      PendingNamed(before, course, repo, seen + RowsOf(before, a), q, a);
      var wanted := if course[a] in pending then pending[course[a]] else map[];
      assert wanted == Wanted(course, q.pending, a);
      var tasks := CollectNew(wanted, a);
      ProgressStep(before, course, repo, done, p, q, a, collected, tasks);
      todo := collected + tasks;
    }

    /** The loop over the assignments of the course. */
    method SyncAssignments(course: Course, taskMap: Repo)
      returns (pending: Repo, updated: seq<Task>, todo: seq<Task>)
      requires Keyed(rows) && InputOk(course, taskMap)
      modifies this`rows, this`issues
      ensures Progress(old(rows), course, taskMap, course.Keys, Pass(rows, pending, updated), todo)
      ensures issues == Kept(old(issues), old(rows), rows)
    {
      ghost var before := rows;
      pending, updated, todo := taskMap, [], [];
      var left := course.Keys;
      ProgressStarts(before, course, taskMap);
      assert course.Keys - left == {};
      assert issues == Kept(issues, rows, rows);
      hide Progress, Kept;
      while left != {}
        invariant left <= course.Keys
        invariant Progress(before, course, taskMap, course.Keys - left, Pass(rows, pending, updated), todo)
        invariant issues == Kept(old(issues), before, rows)
        decreases left
      {
        var a :| a in left;
        ghost var done := course.Keys - left;
        pending, updated, todo := SyncAssignment(course, a, pending, updated, todo, before, taskMap, done, old(issues));
        assert course.Keys - (left - {a}) == done + {a};
        left := left - {a};
      }
      assert course.Keys - left == course.Keys;
    }

    /** `SynchronizeAssignmentTasks`: a transaction that either does all of this or, when a query or a write fails
        at any point, is rolled back. */
    method SynchronizeAssignmentTasks(course: Course, taskMap: Repo)
      returns (ok: bool, created: seq<Task>, updated: seq<Task>)
      requires Valid() && InputOk(course, taskMap)
      modifies this`rows, this`issues, this`next
      ensures Valid()
      ensures ok ==> Synced(course, taskMap, old(rows), rows, created, updated)
      ensures ok ==> issues == Kept(old(issues), old(rows), rows)
      ensures !ok ==> rows == old(rows) && issues == old(issues)
    {
      var savedRows, savedIssues := rows, issues;
      var pending, todo;
      pending, updated, todo := SyncAssignments(course, taskMap);
      ghost var p := Pass(rows, pending, updated);
      KeptRowsOk(old(rows), course, taskMap, course.Keys, p, todo, next);
      created := InsertTasks(todo);
      KeptSame(old(issues), old(rows), p.rows, rows, created, old(next));
      InsertedRowsOk(p.rows, rows, todo, created, old(next));
      RowsOkLater(old(rows), old(next), next);
      hide Synced, PassOk, Stored, CreatedOk, InputOk, Inserted, Kept, RowsOk;
      assert Done(old(rows), course, taskMap, p, todo, created, old(next), rows);
      DoneIsSynced(old(rows), course, taskMap, p, todo, created, old(next), rows);
      ok := *;
      if !ok {
        rows, issues := savedRows, savedIssues;
      }
    }

    /** `createIssues`: the numbers come from the code host, which may fail. */
    method OpenIssues(repo: Repository, tasks: seq<Task>) returns (ok: bool, made: seq<Issue>)
      ensures ok ==> OpenedOn(repo.id, tasks, made)
    {
      made := [];
      for i := 0 to |tasks|
        invariant |made| == i
        invariant forall k :: 0 <= k < i ==> For(made[k], repo.id, tasks[k].id)
      {
        var refused: bool := *;
        if refused {
          return false, [];
        }
        var number: nat := *;
        made := made + [Issue(repo.id, tasks[i].id, number)];
      }
      ok := true;
    }

    /** `CreateIssues` of the database: all issues are stored, or none. */
    method StoreIssues(made: seq<Issue>) returns (ok: bool)
      requires forall k :: k in issues ==> k < nextIssue
      modifies this`issues, this`nextIssue
      ensures ok ==> IssuesAdded(old(issues), issues, made, old(nextIssue))
      ensures !ok ==> issues == old(issues)
      ensures forall k :: k in issues ==> k < nextIssue
    {
      var saved := issues;
      for i := 0 to |made|
        invariant nextIssue == old(nextIssue) + i
        invariant IssuesAdded(old(issues), issues, made[..i], old(nextIssue))
      {
        issues, nextIssue := issues[nextIssue := made[i]], nextIssue + 1;
      }
      assert made[..|made|] == made;
      ok := *;
      if !ok {
        issues := saved;
      }
    }

    /** The loop over the repositories; the updates of existing issues only reach the code host. */
    method OpenAllIssues(repos: seq<Repository>, created: seq<Task>) returns (ok: bool, made: seq<Issue>)
      requires DistinctRepos(repos) && DistinctTasks(created)
      ensures ok ==> Opened(Groups(repos), Ids(created), made)
    {
      made := [];
      for i := 0 to |repos|
        invariant Opened(Groups(repos[..i]), Ids(created), made)
      {
        assert repos[..i + 1] == repos[..i] + [repos[i]];
        if repos[i].isGroup {
          var accepted, more := OpenIssues(repos[i], created);
          var refused: bool := *;
          if !accepted || refused {
            return false, [];
          }
          assert Groups(repos[..i + 1]) == Groups(repos[..i]) + {repos[i].id};
          OpenedAppend(Groups(repos[..i]), repos[i].id, created, made, more);
          made := made + more;
        } else {
          assert Groups(repos[..i + 1]) == Groups(repos[..i]);
        }
      }
      assert repos[..|repos|] == repos;
      ok := true;
    }

    /** `synchronizeTasksWithIssues`: the tasks are synchronised or not, and then the issues of the created tasks are
        stored or not. */
    method SynchronizeTasksWithIssues(course: Course, taskMap: Repo, repos: seq<Repository>)
      returns (tasksOk: bool, ok: bool, created: seq<Task>, updated: seq<Task>, made: seq<Issue>)
      requires Valid() && NoDangling(issues, rows) && InputOk(course, taskMap) && DistinctRepos(repos)
      modifies this
      ensures Valid() && (ok ==> tasksOk)
      ensures !tasksOk ==> rows == old(rows) && issues == old(issues)
      ensures tasksOk ==> Synced(course, taskMap, old(rows), rows, created, updated)
      ensures tasksOk && !ok ==> issues == Kept(old(issues), old(rows), rows)
      ensures ok ==> FullSync(course, taskMap, old(rows), rows, created, updated, repos,
                              old(issues), made, issues, old(nextIssue))
    {
      ok, made := false, [];
      tasksOk, created, updated := SynchronizeAssignmentTasks(course, taskMap);
      if !tasksOk {
        return;
      }
      var found: bool := *;
      if !found {
        return;
      }
      ok, made := OpenAllIssues(repos, created);
      if ok {
        ok := StoreIssues(made);
      }
      hide Synced, Opened, IssuesAdded, NoDangling, RowsOk, Kept;
    }
  }
}
