/** Reconciling the tasks in the database with the tasks in a course's tests repository
    (database/gormdb_tasks.go:33-99, assignments/tasks.go:41-51, qf/task.go).

    The tasks of the repository come as a map from assignment order to a map from task name to task;
    the loop consumes that map while it runs. Rows are found, and maps are walked, in any order. */
module TaskSync {
  import opened Sequences

  datatype Task = Task(id: nat, assignment: nat, order: nat, title: string, body: string, name: string)

  const DELETE_MSG := "\n**The task associated with this issue has been deleted by the teaching staff.**\n"
  const DELETED := "DELETED"

  predicate HasChanged(t: Task, newTask: Task) { t.title != newTask.title || t.body != newTask.body }

  predicate Same(row: Task, t: Task) { row.title == t.title && row.body == t.body }

  function MarkDeleted(t: Task): Task { t.(title := DELETED + " " + t.title, body := DELETE_MSG + t.body) }

  predicate IsDeleted(t: Task) { DELETED <= t.title }

  /** The tasks of the repository, by order and name, and the assignments of a course with their order. */
  type Repo = map<nat, map<string, Task>>
  type Course = map<nat, nat>
  type Rows = map<nat, Task>

  /** `tasksFromAssignments`: of several tasks with one name the last one counts. */
  function ByName(tasks: seq<Task>): map<string, Task> {
    if |tasks| == 0 then map[]
    else ByName(tasks[..|tasks| - 1])[tasks[|tasks| - 1].name := tasks[|tasks| - 1]]
  }

  lemma {:induction false} ByNameOk(tasks: seq<Task>)
    ensures forall n :: n in ByName(tasks) ==> ByName(tasks)[n] in tasks && ByName(tasks)[n].name == n
    ensures forall t :: t in tasks ==> t.name in ByName(tasks)
  {
    if |tasks| > 0 {
      ByNameOk(tasks[..|tasks| - 1]);
    }
  }

  /** The tasks the repository has for an assignment: none if its order is not in the map. */
  function Wanted(course: Course, repo: Repo, a: nat): map<string, Task> {
    if a in course && course[a] in repo then repo[course[a]] else map[]
  }

  /** Tasks are filed under their names and not yet stored; assignments of a course differ in order. */
  ghost predicate InputOk(course: Course, repo: Repo) {
    && (forall o, n :: o in repo && n in repo[o] ==> repo[o][n].name == n && repo[o][n].id == 0)
    && (forall a, b :: a in course && b in course && course[a] == course[b] ==> a == b)
  }

  datatype Parsed = Parsed(order: nat, tasks: seq<Task>)

  /** `tasksFromAssignments`: of several assignments with one order the last one counts. */
  function RepoOf(parsed: seq<Parsed>): Repo {
    if |parsed| == 0 then map[]
    else RepoOf(parsed[..|parsed| - 1])[parsed[|parsed| - 1].order := ByName(parsed[|parsed| - 1].tasks)]
  }

  /** The last of the tasks with this name. */
  ghost predicate LastNamed(tasks: seq<Task>, n: string, k: nat) {
    k < |tasks| && tasks[k].name == n && forall j :: k < j < |tasks| ==> tasks[j].name != n
  }

  /** The last of the assignments with this order. */
  ghost predicate LastOrdered(parsed: seq<Parsed>, o: nat, i: nat) {
    i < |parsed| && parsed[i].order == o && forall j :: i < j < |parsed| ==> parsed[j].order != o
  }

  /** The names in the map are those of the tasks; for each it holds the last of them. */
  lemma {:induction false} ByNameHolds(tasks: seq<Task>, n: string)
    ensures n in ByName(tasks) <==> exists k: nat :: LastNamed(tasks, n, k)
    ensures forall k: nat :: LastNamed(tasks, n, k) ==> ByName(tasks)[n] == tasks[k]
  {
    if |tasks| > 0 {
      var front, last := tasks[..|tasks| - 1], tasks[|tasks| - 1];
      ByNameHolds(front, n);
      if last.name == n {
        assert LastNamed(tasks, n, |tasks| - 1);
      } else {
        forall k: nat ensures LastNamed(front, n, k) <==> LastNamed(tasks, n, k) {
          assert forall j :: 0 <= j < |front| ==> front[j] == tasks[j];
        }
      }
    }
  }

  /** The orders in the map are those of the assignments; each is filed under its own, the last of equal ones. */
  lemma {:induction false} RepoHolds(parsed: seq<Parsed>, o: nat)
    ensures o in RepoOf(parsed) <==> exists i: nat :: LastOrdered(parsed, o, i)
    ensures forall i: nat :: LastOrdered(parsed, o, i) ==> RepoOf(parsed)[o] == ByName(parsed[i].tasks)
  {
    hide ByName;
    if |parsed| > 0 {
      var front, last := parsed[..|parsed| - 1], parsed[|parsed| - 1];
      RepoHolds(front, o);
      if last.order == o {
        assert LastOrdered(parsed, o, |parsed| - 1);
      } else {
        forall i: nat ensures LastOrdered(front, o, i) <==> LastOrdered(parsed, o, i) {
          assert forall j :: 0 <= j < |front| ==> front[j] == parsed[j];
        }
      }
    }
  }

  lemma LastOfOrder(parsed: seq<Parsed>, i: nat) returns (last: nat)
    requires i < |parsed|
    ensures LastOrdered(parsed, parsed[i].order, last)
  {
    last := |parsed| - 1;
    while parsed[last].order != parsed[i].order
      invariant i <= last < |parsed| && forall j :: last < j < |parsed| ==> parsed[j].order != parsed[i].order
      decreases last
    {
      last := last - 1;
    }
  }

  lemma LastOfName(tasks: seq<Task>, k: nat) returns (last: nat)
    requires k < |tasks|
    ensures LastNamed(tasks, tasks[k].name, last)
  {
    last := |tasks| - 1;
    while tasks[last].name != tasks[k].name
      invariant k <= last < |tasks| && forall j :: last < j < |tasks| ==> tasks[j].name != tasks[k].name
      decreases last
    {
      last := last - 1;
    }
  }

  /** The map has an entry for exactly the orders of the assignments. In it are exactly the names of the tasks of the
      last assignment of that order, and for each name the last of its tasks. */
  lemma RepoExactlyWhen(parsed: seq<Parsed>, o: nat, n: string)
    ensures o in RepoOf(parsed) <==> exists p :: p in parsed && p.order == o
    ensures forall i: nat :: LastOrdered(parsed, o, i) ==> (
              && (n in RepoOf(parsed)[o] <==> exists t :: t in parsed[i].tasks && t.name == n)
              && forall k: nat :: LastNamed(parsed[i].tasks, n, k) ==> RepoOf(parsed)[o][n] == parsed[i].tasks[k])
  {
    hide RepoOf, ByName;
    RepoHolds(parsed, o);
    if p :| p in parsed && p.order == o {
      var i: nat :| i < |parsed| && parsed[i] == p;
      var last := LastOfOrder(parsed, i);
    }
    forall i: nat | LastOrdered(parsed, o, i)
      ensures n in RepoOf(parsed)[o] <==> exists t :: t in parsed[i].tasks && t.name == n
      ensures forall k: nat :: LastNamed(parsed[i].tasks, n, k) ==> RepoOf(parsed)[o][n] == parsed[i].tasks[k]
    {
      var tasks := parsed[i].tasks;
      ByNameHolds(tasks, n);
      if t :| t in tasks && t.name == n {
        var k: nat :| k < |tasks| && tasks[k] == t;
        var last := LastOfName(tasks, k);
      }
    }
  }

  /** The map built from freshly parsed tasks is fit for synchronisation. */
  lemma {:induction false} RepoIsInput(course: Course, parsed: seq<Parsed>)
    requires forall p, t :: p in parsed && t in p.tasks ==> t.id == 0
    requires forall a, b :: a in course && b in course && course[a] == course[b] ==> a == b
    ensures InputOk(course, RepoOf(parsed))
  {
    if |parsed| > 0 {
      RepoIsInput(course, parsed[..|parsed| - 1]);
      ByNameOk(parsed[|parsed| - 1].tasks);
    }
  }

  ghost predicate RowsOk(rows: Rows, next: nat) {
    Keyed(rows) && forall id :: id in rows ==> id < next
  }

  ghost predicate Keyed(rows: Rows) { forall id :: id in rows ==> rows[id].id == id }

  function Refreshed(row: Task, t: Task): Task { row.(title := t.title, body := t.body) }

  // ---------- one existing task ----------

  /** The state of the loop over existing tasks. */
  datatype Pass = Pass(rows: Rows, pending: Repo, updated: seq<Task>)

  /** Without a counterpart in the repository a task is deleted, otherwise updated if it has changed,
      and its counterpart is taken out of the map. */
  function SyncRow(course: Course, p: Pass, id: nat): Pass
    requires id in p.rows && p.rows[id].assignment in course
  {
    var row, o := p.rows[id], course[p.rows[id].assignment];
    if o !in p.pending || row.name !in p.pending[o] then
      Pass(p.rows - {id}, p.pending, p.updated + [MarkDeleted(row)])
    else
      var t := p.pending[o][row.name];
      Pass(p.rows[id := Refreshed(row, t)], p.pending[o := p.pending[o] - {row.name}],
           if HasChanged(row, t) then p.updated + [Refreshed(row, t)] else p.updated)
  }

  predicate SameKey(s: Task, t: Task) { s.assignment == t.assignment && s.name == t.name }

  /** One of the given rows is for this task of this assignment. */
  ghost predicate Named(rows: Rows, ids: set<nat>, a: nat, n: string) {
    exists id :: id in ids && id in rows && rows[id].assignment == a && rows[id].name == n
  }

  /** What is reported about the row `id`: its new contents if they differ, or that it is deleted. */
  predicate Reports(before: Rows, after: Rows, id: nat, u: Task) {
    && id in before
    && (if id in after then !Same(before[id], after[id]) && u == after[id] else u == MarkDeleted(before[id]))
  }

  // ---------- what the loop over existing tasks maintains ----------

  /** Rows not yet seen are untouched; a surviving row has its counterpart's contents. */
  ghost predicate RowsSynced(before: Rows, course: Course, repo: Repo, seen: set<nat>, after: Rows) {
    && seen <= before.Keys && after.Keys <= before.Keys
    && (forall id :: id in before && id !in seen ==> id in after && after[id] == before[id])
    && (forall id :: id in seen && id in after ==>
          && before[id].name in Wanted(course, repo, before[id].assignment)
          && after[id] == Refreshed(before[id], Wanted(course, repo, before[id].assignment)[before[id].name]))
  }

  /** Of the rows seen for one task exactly one survives, if the repository has one of that name. */
  ghost predicate OneSurvives(before: Rows, course: Course, repo: Repo, seen: set<nat>, after: Rows) {
    && (forall id :: id in seen && id in before && id !in after
                     && before[id].name in Wanted(course, repo, before[id].assignment) ==>
          Named(after, seen, before[id].assignment, before[id].name))
    && (forall i, j :: i in seen && j in seen && i in after && j in after && SameKey(after[i], after[j]) ==> i == j)
  }

  /** The map holds what no row seen so far is for. */
  ghost predicate PendingOk(before: Rows, course: Course, repo: Repo, seen: set<nat>, pending: Repo) {
    forall a, n :: a in course ==> (
      && (n in Wanted(course, pending, a) <==> n in Wanted(course, repo, a) && !Named(before, seen, a, n))
      && (n in Wanted(course, pending, a) ==> Wanted(course, pending, a)[n] == Wanted(course, repo, a)[n]))
  }

  /** The report lists exactly the changed and the deleted rows among those seen, each once. */
  ghost predicate ReportOk(before: Rows, seen: set<nat>, after: Rows, updated: seq<Task>) {
    && (forall u :: u in updated <==> exists id :: id in seen && Reports(before, after, id, u))
    && (forall i, j :: 0 <= i < j < |updated| ==> updated[i].id != updated[j].id)
  }

  ghost predicate PassOk(before: Rows, course: Course, repo: Repo, seen: set<nat>, p: Pass) {
    && RowsSynced(before, course, repo, seen, p.rows)
    && OneSurvives(before, course, repo, seen, p.rows)
    && PendingOk(before, course, repo, seen, p.pending)
    && ReportOk(before, seen, p.rows, p.updated)
  }

  ghost predicate CanSync(before: Rows, course: Course, repo: Repo, seen: set<nat>, p: Pass, id: nat) {
    && InputOk(course, repo) && Keyed(before)
    && PassOk(before, course, repo, seen, p)
    && id in before && id !in seen && before[id].assignment in course
  }

  lemma SyncRowRows(before: Rows, course: Course, repo: Repo, seen: set<nat>, p: Pass, id: nat)
    requires CanSync(before, course, repo, seen, p, id)
    ensures RowsSynced(before, course, repo, seen + {id}, SyncRow(course, p, id).rows)
  {
    hide OneSurvives, ReportOk;
  }

  /** The last row seen for a task survives if no other row for it has survived. */
  lemma SyncRowFindsSurvivor(before: Rows, course: Course, repo: Repo, seen: set<nat>, p: Pass, id: nat, x: nat)
    requires CanSync(before, course, repo, seen, p, id)
    requires x in seen + {id} && x !in SyncRow(course, p, id).rows
    requires before[x].name in Wanted(course, repo, before[x].assignment)
    ensures Named(SyncRow(course, p, id).rows, seen + {id}, before[x].assignment, before[x].name)
  {
    hide ReportOk;
    var after := SyncRow(course, p, id).rows;
    var a, n := before[x].assignment, before[x].name;
    if x == id {
      assert Named(before, seen, a, n);
      var y :| y in seen && y in before && before[y].assignment == a && before[y].name == n;
      if y in p.rows {
        assert y in after;
        return;
      }
    }
    assert Named(p.rows, seen, a, n);
    var z :| z in seen && z in p.rows && p.rows[z].assignment == a && p.rows[z].name == n;
    assert z in after;
  }

  lemma SyncRowSurvivors(before: Rows, course: Course, repo: Repo, seen: set<nat>, p: Pass, id: nat)
    requires CanSync(before, course, repo, seen, p, id)
    ensures OneSurvives(before, course, repo, seen + {id}, SyncRow(course, p, id).rows)
  {
    var after := SyncRow(course, p, id).rows;
    forall x | x in seen + {id} && x !in after && before[x].name in Wanted(course, repo, before[x].assignment)
      ensures Named(after, seen + {id}, before[x].assignment, before[x].name)
    {
      SyncRowFindsSurvivor(before, course, repo, seen, p, id, x);
    }
    hide ReportOk;
    if id in after {
      assert !Named(before, seen, before[id].assignment, before[id].name);
    }
    forall i, j | i in seen + {id} && j in seen + {id} && i in after && j in after && SameKey(after[i], after[j])
      ensures i == j
    {
      assert i != id ==> after[i] == p.rows[i];
      assert j != id ==> after[j] == p.rows[j];
    }
  }

  /** Only the entry of the row's own assignment changes: other assignments have other orders. */
  lemma WantedAfter(course: Course, repo: Repo, p: Pass, id: nat, a: nat)
    requires InputOk(course, repo) && id in p.rows && p.rows[id].assignment in course && a in course
    ensures Wanted(course, SyncRow(course, p, id).pending, a) ==
            if a == p.rows[id].assignment then Wanted(course, p.pending, a) - {p.rows[id].name}
            else Wanted(course, p.pending, a)
  {
  }

  lemma NamedMore(before: Rows, seen: set<nat>, id: nat, a: nat, n: string)
    requires id in before
    ensures Named(before, seen + {id}, a, n) <==>
            Named(before, seen, a, n) || (before[id].assignment == a && before[id].name == n)
  {
    if before[id].assignment == a && before[id].name == n {
      assert id in seen + {id};
    }
    if Named(before, seen, a, n) {
      var x :| x in seen && x in before && before[x].assignment == a && before[x].name == n;
      assert x in seen + {id};
    }
  }

  /** What the map holds for one task of one assignment. */
  ghost predicate PendingAt(before: Rows, course: Course, repo: Repo, seen: set<nat>, pending: Repo,
                            a: nat, n: string)
  {
    && (n in Wanted(course, pending, a) <==> n in Wanted(course, repo, a) && !Named(before, seen, a, n))
    && (n in Wanted(course, pending, a) ==> Wanted(course, pending, a)[n] == Wanted(course, repo, a)[n])
  }

  lemma SyncRowPendingAt(before: Rows, course: Course, repo: Repo, seen: set<nat>, p: Pass, id: nat, a: nat, n: string)
    requires InputOk(course, repo) && id in before && id in p.rows && p.rows[id] == before[id]
    requires before[id].assignment in course && a in course
    requires PendingAt(before, course, repo, seen, p.pending, a, n)
    ensures PendingAt(before, course, repo, seen + {id}, SyncRow(course, p, id).pending, a, n)
  {
    WantedAfter(course, repo, p, id, a);
    NamedMore(before, seen, id, a, n);
    hide Named, Wanted, InputOk, SyncRow;
  }

  lemma PendingEverywhere(before: Rows, course: Course, repo: Repo, seen: set<nat>, pending: Repo)
    ensures PendingOk(before, course, repo, seen, pending) <==>
            forall a, n :: a in course ==> PendingAt(before, course, repo, seen, pending, a, n)
  {
    hide Wanted, Named;
    if PendingOk(before, course, repo, seen, pending) {
      forall a, n | a in course ensures PendingAt(before, course, repo, seen, pending, a, n) {
      }
    }
    if forall a, n :: a in course ==> PendingAt(before, course, repo, seen, pending, a, n) {
      forall a, n | a in course
        ensures n in Wanted(course, pending, a) <==> n in Wanted(course, repo, a) && !Named(before, seen, a, n)
        ensures n in Wanted(course, pending, a) ==> Wanted(course, pending, a)[n] == Wanted(course, repo, a)[n]
      {
        assert PendingAt(before, course, repo, seen, pending, a, n);
      }
    }
  }

  lemma SyncRowPending(before: Rows, course: Course, repo: Repo, seen: set<nat>, p: Pass, id: nat)
    requires CanSync(before, course, repo, seen, p, id)
    ensures PendingOk(before, course, repo, seen + {id}, SyncRow(course, p, id).pending)
  {
    hide OneSurvives, PendingOk, ReportOk, PendingAt, SyncRow;
    PendingEverywhere(before, course, repo, seen, p.pending);
    PendingEverywhere(before, course, repo, seen + {id}, SyncRow(course, p, id).pending);
    forall a, n | a in course
      ensures PendingAt(before, course, repo, seen + {id}, SyncRow(course, p, id).pending, a, n)
    {
      SyncRowPendingAt(before, course, repo, seen, p, id, a, n);
    }
  }

  /** What is reported about other rows does not change. */
  lemma ReportsStay(before: Rows, course: Course, repo: Repo, seen: set<nat>, p: Pass, id: nat, x: nat, u: Task)
    requires CanSync(before, course, repo, seen, p, id) && x in seen
    ensures Reports(before, SyncRow(course, p, id).rows, x, u) <==> Reports(before, p.rows, x, u)
  {
    hide OneSurvives, PendingOk, ReportOk, Wanted;
  }

  /** At most one report is added, about this row. */
  lemma ReportAdded(before: Rows, course: Course, repo: Repo, seen: set<nat>, p: Pass, id: nat)
    returns (more: seq<Task>)
    requires CanSync(before, course, repo, seen, p, id)
    ensures SyncRow(course, p, id).updated == p.updated + more
    ensures |more| <= 1 && forall u :: u in more <==> Reports(before, SyncRow(course, p, id).rows, id, u)
    ensures forall u :: u in more ==> u.id == id
  {
    hide OneSurvives, PendingOk, ReportOk;
    more := SyncRow(course, p, id).updated[|p.updated|..];
  }

  lemma ReportedAreSeen(before: Rows, seen: set<nat>, rows: Rows, updated: seq<Task>)
    requires Keyed(before) && Keyed(rows) && ReportOk(before, seen, rows, updated)
    ensures forall u :: u in updated ==> u.id in seen
  {
    forall u | u in updated ensures u.id in seen {
      var x :| x in seen && Reports(before, rows, x, u);
    }
  }

  lemma PassKeyed(before: Rows, course: Course, repo: Repo, seen: set<nat>, p: Pass)
    requires Keyed(before) && PassOk(before, course, repo, seen, p)
    ensures Keyed(p.rows)
  {
    hide OneSurvives, PendingOk, ReportOk, Wanted;
  }

  lemma SyncRowReport(before: Rows, course: Course, repo: Repo, seen: set<nat>, p: Pass, id: nat)
    requires CanSync(before, course, repo, seen, p, id)
    ensures ReportOk(before, seen + {id}, SyncRow(course, p, id).rows, SyncRow(course, p, id).updated)
  {
    var q := SyncRow(course, p, id);
    hide RowsSynced, OneSurvives, PendingOk, SyncRow, Reports, Keyed, InputOk;
    var more := ReportAdded(before, course, repo, seen, p, id);
    forall x, u | x in seen ensures Reports(before, q.rows, x, u) <==> Reports(before, p.rows, x, u) {
      ReportsStay(before, course, repo, seen, p, id, x, u);
    }
    forall u ensures u in q.updated <==> exists x :: x in seen + {id} && Reports(before, q.rows, x, u) {
      assert id in seen + {id};
    }
    PassKeyed(before, course, repo, seen, p);
    ReportedAreSeen(before, seen, p.rows, p.updated);
  }

  lemma SyncRowKeepsPass(before: Rows, course: Course, repo: Repo, seen: set<nat>, p: Pass, id: nat)
    requires CanSync(before, course, repo, seen, p, id)
    ensures PassOk(before, course, repo, seen + {id}, SyncRow(course, p, id))
  {
    SyncRowRows(before, course, repo, seen, p, id);
    SyncRowSurvivors(before, course, repo, seen, p, id);
    SyncRowPending(before, course, repo, seen, p, id);
    SyncRowReport(before, course, repo, seen, p, id);
    hide RowsSynced, OneSurvives, PendingOk, ReportOk, SyncRow;
  }

  // ---------- the whole synchronisation ----------

  function RowsOf(rows: Rows, a: nat): set<nat> { set id | id in rows && rows[id].assignment == a }

  function RowsIn(rows: Rows, course: set<nat>): set<nat> { set id | id in rows && rows[id].assignment in course }

  /** The tasks to create for the assignments done so far: exactly those without a row, each once. */
  ghost predicate CreatedOk(before: Rows, course: Course, repo: Repo, done: set<nat>, created: seq<Task>) {
    && (forall t :: t in created <==>
          && t.assignment in done && t.assignment in course && t.name in Wanted(course, repo, t.assignment)
          && !Named(before, before.Keys, t.assignment, t.name)
          && t == Wanted(course, repo, t.assignment)[t.name].(assignment := t.assignment))
    && (forall i, j :: 0 <= i < j < |created| ==> !SameKey(created[i], created[j]))
  }

  /** The created tasks with the IDs the database gave them. */
  ghost predicate Stored(todo: seq<Task>, created: seq<Task>, first: nat) {
    && |created| <= |todo|
    && forall i :: 0 <= i < |created| ==> created[i] == todo[i].(id := first + i)
  }

  /** `after` holds what remained of the old rows and the rows with the IDs from `first` on. */
  ghost predicate Inserted(kept: Rows, after: Rows, created: seq<Task>, first: nat) {
    && (forall id :: id in after <==> id in kept || first <= id < first + |created|)
    && (forall id :: id in kept ==> after[id] == kept[id])
    && (forall i :: 0 <= i < |created| ==> after[first + i] == created[i])
  }

  /** The database agrees with the repository: every task of the course has exactly one row, and every
      row of the course has a task, with its title and body. */
  ghost predicate Agrees(course: Course, repo: Repo, rows: Rows) {
    && (forall id :: id in rows && rows[id].assignment in course ==>
          && rows[id].name in Wanted(course, repo, rows[id].assignment)
          && Same(rows[id], Wanted(course, repo, rows[id].assignment)[rows[id].name]))
    && (forall a, n :: a in course && n in Wanted(course, repo, a) ==> Named(rows, rows.Keys, a, n))
    && (forall i, j :: i in rows && j in rows && rows[i].assignment in course && SameKey(rows[i], rows[j]) ==> i == j)
  }

  /** Old rows keep their ID, assignment, order and name; rows of other courses keep everything;
      a task of the repository that had a row keeps one. */
  ghost predicate Survives(course: Course, repo: Repo, before: Rows, after: Rows) {
    && (forall id :: id in before && before[id].assignment !in course ==> id in after && after[id] == before[id])
    && (forall id :: id in before && id in after ==>
          after[id] == before[id].(title := after[id].title, body := after[id].body))
    && (forall id :: id in before && before[id].assignment in course
                     && before[id].name in Wanted(course, repo, before[id].assignment) ==>
          Named(after, before.Keys, before[id].assignment, before[id].name))
  }

  /** The created tasks are the new rows, and their names are the ones that had no row. */
  ghost predicate CreatesNew(course: Course, repo: Repo, before: Rows, after: Rows, created: seq<Task>) {
    && (forall t :: t in created <==> t.id in after && t.id !in before && after[t.id] == t)
    && (forall i, j :: 0 <= i < j < |created| ==> created[i].id != created[j].id)
    && (forall t :: t in created ==> t.assignment in course && !Named(before, before.Keys, t.assignment, t.name))
  }

  /** The outcome of synchronising the rows `before` with the repository. */
  ghost predicate Synced(course: Course, repo: Repo, before: Rows, after: Rows, created: seq<Task>,
                         updated: seq<Task>)
  {
    && Agrees(course, repo, after)
    && Survives(course, repo, before, after)
    && CreatesNew(course, repo, before, after, created)
    && ReportOk(before, RowsIn(before, course.Keys), after, updated)
  }

  /** Where the insertion loop stands when both loops over the assignments are done. */
  ghost predicate Done(before: Rows, course: Course, repo: Repo, p: Pass, todo: seq<Task>, created: seq<Task>,
                       first: nat, after: Rows) {
    && InputOk(course, repo) && RowsOk(before, first)
    && PassOk(before, course, repo, RowsIn(before, course.Keys), p)
    && CreatedOk(before, course, repo, course.Keys, todo)
    && Stored(todo, created, first) && |created| == |todo|
    && Inserted(p.rows, after, created, first)
  }

  lemma DoneReports(before: Rows, course: Course, repo: Repo, p: Pass, todo: seq<Task>, created: seq<Task>, first: nat,
                    after: Rows)
    requires Done(before, course, repo, p, todo, created, first, after)
    ensures ReportOk(before, RowsIn(before, course.Keys), after, p.updated)
  {
    hide OneSurvives, PendingOk, CreatedOk, Stored, InputOk;
  }

  lemma DoneCreates(before: Rows, course: Course, repo: Repo, p: Pass, todo: seq<Task>, created: seq<Task>, first: nat,
                    after: Rows)
    requires Done(before, course, repo, p, todo, created, first, after)
    ensures CreatesNew(course, repo, before, after, created)
  {
    hide OneSurvives, PendingOk, ReportOk, InputOk, Wanted;
    forall t ensures t in created <==> t.id in after && t.id !in before && after[t.id] == t {
      if t in created {
        var i :| 0 <= i < |created| && created[i] == t;
        assert after[first + i] == t;
      }
      if t.id in after && t.id !in before && after[t.id] == t {
        assert created[t.id - first] == t;
      }
    }
    forall i | 0 <= i < |created|
      ensures created[i].assignment in course && !Named(before, before.Keys, created[i].assignment, created[i].name)
    {
      assert todo[i] in todo;
    }
  }

  lemma DoneSurvives(before: Rows, course: Course, repo: Repo, p: Pass, todo: seq<Task>, created: seq<Task>,
                     first: nat, after: Rows)
    requires Done(before, course, repo, p, todo, created, first, after)
    ensures Survives(course, repo, before, after)
  {
    hide PendingOk, ReportOk, InputOk, CreatedOk, Stored;
  }

  /** A new row is for a task of the repository that had no row; a row that was kept has its contents. */
  lemma DoneRow(before: Rows, course: Course, repo: Repo, p: Pass, todo: seq<Task>, created: seq<Task>, first: nat,
                after: Rows, id: nat)
    requires Done(before, course, repo, p, todo, created, first, after)
    requires id in after && after[id].assignment in course
    ensures after[id].name in Wanted(course, repo, after[id].assignment)
    ensures Same(after[id], Wanted(course, repo, after[id].assignment)[after[id].name])
    ensures id in p.rows ==> id in RowsIn(before, course.Keys) && p.rows[id] == after[id]
    ensures id !in p.rows ==> !Named(before, before.Keys, after[id].assignment, after[id].name)
    ensures id !in p.rows ==> first <= id < first + |todo| && SameKey(after[id], todo[id - first])
  {
    hide OneSurvives, PendingOk, ReportOk, InputOk, Wanted, Named;
    if id in p.rows {
      assert before[id].assignment == after[id].assignment by {
        assert id in before;
        assert id !in RowsIn(before, course.Keys) ==> p.rows[id] == before[id];
      }
    } else {
      assert created[id - first] == after[id];
      assert todo[id - first] in todo;
    }
  }

  lemma DoneNamed(before: Rows, course: Course, repo: Repo, p: Pass, todo: seq<Task>, created: seq<Task>, first: nat,
                  after: Rows, a: nat, n: string)
    requires Done(before, course, repo, p, todo, created, first, after)
    requires a in course && n in Wanted(course, repo, a)
    ensures Named(after, after.Keys, a, n)
  {
    if Named(before, before.Keys, a, n) {
      DoneSurvives(before, course, repo, p, todo, created, first, after);
      var id :| id in before && before[id].assignment == a && before[id].name == n;
      assert Named(after, before.Keys, a, n);
      var y :| y in before.Keys && y in after && after[y].assignment == a && after[y].name == n;
      assert y in after.Keys;
    } else {
      hide PassOk, RowsOk, Named;
      var t := Wanted(course, repo, a)[n].(assignment := a);
      assert t in todo;
      var i :| 0 <= i < |todo| && todo[i] == t;
      assert after[first + i] == created[i];
      assert Named(after, after.Keys, a, n) by {
        RowIsNamed(after, first + i, a, n);
      }
    }
  }

  lemma RowIsNamed(rows: Rows, id: nat, a: nat, n: string)
    requires id in rows && rows[id].assignment == a && rows[id].name == n
    ensures Named(rows, rows.Keys, a, n)
  {
    assert id in rows.Keys;
  }

  lemma DoneAgrees(before: Rows, course: Course, repo: Repo, p: Pass, todo: seq<Task>, created: seq<Task>, first: nat,
                   after: Rows)
    requires Done(before, course, repo, p, todo, created, first, after)
    ensures Agrees(course, repo, after)
  {
    hide Done, Named, Same, Wanted;
    forall id | id in after && after[id].assignment in course
      ensures after[id].name in Wanted(course, repo, after[id].assignment)
      ensures Same(after[id], Wanted(course, repo, after[id].assignment)[after[id].name])
    {
      DoneRow(before, course, repo, p, todo, created, first, after, id);
    }
    forall a, n | a in course && n in Wanted(course, repo, a) ensures Named(after, after.Keys, a, n) {
      DoneNamed(before, course, repo, p, todo, created, first, after, a, n);
    }
    forall i, j | i in after && j in after && after[i].assignment in course && SameKey(after[i], after[j])
      ensures i == j
    {
      DoneDistinct(before, course, repo, p, todo, created, first, after, i, j);
    }
  }

  /** No two rows of the course are for the same task afterwards. */
  lemma DoneDistinct(before: Rows, course: Course, repo: Repo, p: Pass, todo: seq<Task>, created: seq<Task>,
                     first: nat, after: Rows, i: nat, j: nat)
    requires Done(before, course, repo, p, todo, created, first, after)
    requires i in after && j in after && after[i].assignment in course && SameKey(after[i], after[j])
    ensures i == j
  {
    hide PendingOk, ReportOk, InputOk, Wanted, Same;
    DoneRow(before, course, repo, p, todo, created, first, after, i);
    DoneRow(before, course, repo, p, todo, created, first, after, j);
    if i !in p.rows && j !in p.rows {
      assert SameKey(todo[i - first], todo[j - first]);
    }
  }

  lemma DoneIsSynced(before: Rows, course: Course, repo: Repo, p: Pass, todo: seq<Task>, created: seq<Task>,
                     first: nat, after: Rows)
    requires Done(before, course, repo, p, todo, created, first, after)
    ensures Synced(course, repo, before, after, created, p.updated)
  {
    DoneAgrees(before, course, repo, p, todo, created, first, after);
    DoneSurvives(before, course, repo, p, todo, created, first, after);
    DoneCreates(before, course, repo, p, todo, created, first, after);
    DoneReports(before, course, repo, p, todo, created, first, after);
    hide Done, Agrees, Survives, CreatesNew, ReportOk;
  }

  ghost predicate HasTask(tasks: seq<Task>, n: string) { exists t :: t in tasks && t.name == n }

  /** In terms of the parsed assignments: afterwards the stored tasks of an assignment are those of the last parsed
      assignment of its order, by name, title and body; there are none if nothing was parsed for the order. */
  lemma StoredAreParsed(course: Course, parsed: seq<Parsed>, rows: Rows, a: nat, n: string)
    requires Agrees(course, RepoOf(parsed), rows) && a in course
    ensures forall i: nat :: LastOrdered(parsed, course[a], i) ==>
              (Named(rows, rows.Keys, a, n) <==> HasTask(parsed[i].tasks, n))
    ensures (forall p :: p in parsed ==> p.order != course[a]) ==> !Named(rows, rows.Keys, a, n)
    ensures forall i: nat, k: nat, id :: LastOrdered(parsed, course[a], i) && LastNamed(parsed[i].tasks, n, k)
                                         && id in rows && rows[id].assignment == a && rows[id].name == n ==>
              Same(rows[id], parsed[i].tasks[k])
  {
    RepoExactlyWhen(parsed, course[a], n);
    assert forall i: nat :: LastOrdered(parsed, course[a], i) ==> parsed[i] in parsed && parsed[i].order == course[a];
    hide RepoOf, Same;
    assert Named(rows, rows.Keys, a, n) <==> n in Wanted(course, RepoOf(parsed), a);
  }

  /** Once the database agrees with the repository, a further synchronisation keeps every row. */
  lemma AgreedRowStays(course: Course, repo: Repo, after: Rows, later: Rows, id: nat)
    requires Agrees(course, repo, after) && Agrees(course, repo, later) && Survives(course, repo, after, later)
    requires id in after
    ensures id in later && later[id] == after[id]
  {
    hide Wanted;
  }

  /** Synchronising twice with the same repository: the second time creates, updates and changes nothing. */
  lemma SecondSyncDoesNothing(course: Course, repo: Repo, before: Rows, after: Rows, created: seq<Task>,
                              updated: seq<Task>,
                              later: Rows, created2: seq<Task>, updated2: seq<Task>)
    requires Synced(course, repo, before, after, created, updated)
    requires Keyed(later)
    requires Synced(course, repo, after, later, created2, updated2)
    ensures created2 == [] && updated2 == [] && later == after
  {
    assert forall id :: id in later && id !in after ==> later[id] in created2;
    FirstIsMember(created2);
    FirstIsMember(updated2);
    forall id | id in after ensures id in later && later[id] == after[id] {
      AgreedRowStays(course, repo, after, later, id);
    }
    assert forall id, u :: id in after ==> !Reports(after, later, id, u);
    assert forall t :: t in created2 ==> Named(after, after.Keys, t.assignment, t.name);
  }

  /** A reported task is treated as deleted if it was removed, or if its title in the repository starts
      with the marker: a task whose title starts with it has its issues closed while it exists. */
  lemma DeletedExactlyWhen(before: Rows, after: Rows, id: nat, u: Task)
    requires Reports(before, after, id, u)
    ensures IsDeleted(u) <==> id !in after || "DELETED" <= after[id].title
    ensures id !in after ==> u.title == "DELETED " + before[id].title
  {
    assert DELETED + " " == "DELETED ";
  }
}
