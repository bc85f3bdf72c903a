/** Slip days: charging an enrolment for late submissions, and what remains (qf/enrollment.go:14-79,
    qf/enrollment.go:137-153, ci/record_results.go:39-44 and 102-128).

    Points in time and durations are whole nanoseconds; the difference of two times saturates at the
    limits of a 64-bit integer, as it does in Go. */
module SlipDays {

  const HOUR := 3_600_000_000_000
  const DAY := 24 * HOUR
  const GRACE := 2 * HOUR
  const MAX_INT64 := 0x7FFF_FFFF_FFFF_FFFF
  const MIN_INT64 := -0x8000_0000_0000_0000
  const TWO_31 := 0x8000_0000
  const TWO_32 := 0x1_0000_0000

  type uint32 = x: int | 0 <= x < TWO_32

  datatype Assignment = Assignment(id: nat, course: nat, deadline: int, scoreLimit: nat)
  datatype Submission = Submission(assignment: nat, date: int, score: nat, approved: set<nat>)
  datatype Used = Used(assignment: nat, enrollment: nat, days: uint32)
  datatype Course = Course(id: nat, slipDays: uint32)

  function SinceDeadline(a: Assignment, now: int): (d: int)
    ensures MIN_INT64 <= d <= MAX_INT64
  {
    var d := now - a.deadline;
    if d > MAX_INT64 then MAX_INT64 else if d < MIN_INT64 then MIN_INT64 else d
  }

  // ---------- the charge ----------

  /** The slip days for being late: the full days, and one more if what is left exceeds the grace period. */
  function Charge(late: int): (days: int)
    requires 0 < late <= MAX_INT64
    ensures 0 <= days < 106_753
  {
    late / DAY + if late % DAY > GRACE then 1 else 0
  }

  /** The least whole number that is not below n/d. */
  ghost predicate IsCeiling(n: int, d: int, c: int)
    requires d > 0
  {
    (c - 1) * d < n <= c * d
  }

  /** The charge is the lateness beyond two hours, in days of 24 hours, rounded up, and never negative. */
  lemma ChargeIsCeiling(late: int)
    requires 0 < late <= MAX_INT64
    ensures IsCeiling(late - 7_200_000_000_000, 86_400_000_000_000, Charge(late))
  {
  }

  lemma ChargeMonotone(late: int, later: int)
    requires 0 < late <= later <= MAX_INT64
    ensures Charge(late) <= Charge(later)
  {
  }

  /** Whether a submission is charged for: its score is too low, it is not approved, and it is late. */
  predicate IsCharged(a: Assignment, s: Submission, user: nat) {
    s.score < a.scoreLimit && user !in s.approved && SinceDeadline(a, s.date) > 0
  }

  // ---------- the list of used slip days ----------

  /** Replaces the days of the first entry for the assignment, or appends an entry. */
  function Upsert(used: seq<Used>, enrollment: nat, a: nat, days: uint32): seq<Used> {
    if |used| == 0 then [Used(a, enrollment, days)]
    else if used[0].assignment == a then [used[0].(days := days)] + used[1..]
    else [used[0]] + Upsert(used[1..], enrollment, a, days)
  }

  datatype Option = None | Some(days: uint32)

  /** What is charged for an assignment: the days of its first entry. */
  function Lookup(used: seq<Used>, a: nat): Option {
    if |used| == 0 then None
    else if used[0].assignment == a then Some(used[0].days)
    else Lookup(used[1..], a)
  }

  function DaysOf(charged: Option): uint32 { if charged.None? then 0 else charged.days }

  ghost predicate OneEntryEach(used: seq<Used>) {
    forall i, j :: 0 <= i < j < |used| ==> used[i].assignment != used[j].assignment
  }

  lemma {:induction false} UpsertLookup(used: seq<Used>, enrollment: nat, a: nat, days: uint32, b: nat)
    ensures Lookup(Upsert(used, enrollment, a, days), b) == if b == a then Some(days) else Lookup(used, b)
  {
    if |used| > 0 && used[0].assignment != a {
      UpsertLookup(used[1..], enrollment, a, days, b);
    }
  }

  /** The entries for other assignments stay, in order; an entry is added only if there was none. */
  ghost predicate Upserted(used: seq<Used>, after: seq<Used>, a: nat) {
    && |used| <= |after| <= |used| + 1
    && (forall i :: 0 <= i < |used| ==> after[i].assignment == used[i].assignment)
    && (forall i :: 0 <= i < |used| && used[i].assignment != a ==> after[i] == used[i])
    && (|after| > |used| ==> after[|used|].assignment == a && Lookup(used, a) == None)
  }

  lemma {:induction false} UpsertEntries(used: seq<Used>, enrollment: nat, a: nat, days: uint32)
    requires OneEntryEach(used)
    ensures Upserted(used, Upsert(used, enrollment, a, days), a)
  {
    if |used| > 0 && used[0].assignment != a {
      UpsertEntries(used[1..], enrollment, a, days);
      var after, rest := Upsert(used, enrollment, a, days), Upsert(used[1..], enrollment, a, days);
      assert forall i :: 0 < i < |used| ==> used[i] == used[1..][i - 1] && after[i] == rest[i - 1];
    }
  }

  lemma {:induction false} LookupFinds(used: seq<Used>, i: nat)
    requires i < |used|
    ensures Lookup(used, used[i].assignment).Some?
    ensures OneEntryEach(used) ==> Lookup(used, used[i].assignment) == Some(used[i].days)
  {
    if i > 0 {
      LookupFinds(used[1..], i - 1);
    }
  }

  lemma UpsertKeepsOneEntryEach(used: seq<Used>, enrollment: nat, a: nat, days: uint32)
    requires OneEntryEach(used)
    ensures OneEntryEach(Upsert(used, enrollment, a, days))
  {
    UpsertEntries(used, enrollment, a, days);
    var after := Upsert(used, enrollment, a, days);
    forall i, j | 0 <= i < j < |after| ensures after[i].assignment != after[j].assignment {
      if j == |used| {
        LookupFinds(used, i);
      }
    }
  }

  /** The list after a submission has been recorded for the user. */
  function Recorded(used: seq<Used>, enrollment: nat, user: nat, a: Assignment, s: Submission): seq<Used> {
    if IsCharged(a, s, user) then Upsert(used, enrollment, a.id, Charge(SinceDeadline(a, s.date))) else used
  }

  /** The list stays as it was if the score reaches the limit, the user is approved or the submission is in time.
      Otherwise the assignment is charged the lateness beyond two hours in days, rounded up, and nothing else
      changes; a difference of times beyond 64 bits is cut off. */
  lemma ChargedExactlyWhen(used: seq<Used>, enrollment: nat, user: nat, a: Assignment, s: Submission, x: nat)
    ensures var after := Recorded(used, enrollment, user, a, s);
            if s.score >= a.scoreLimit || user in s.approved || s.date <= a.deadline then after == used
            else
              var late := s.date - a.deadline;
              var d := if late > 0x7FFF_FFFF_FFFF_FFFF then 0x7FFF_FFFF_FFFF_FFFF else late;
              && Lookup(after, a.id).Some?
              && IsCeiling(d - 7_200_000_000_000, 86_400_000_000_000, Lookup(after, a.id).days)
              && (x != a.id ==> Lookup(after, x) == Lookup(used, x))
  {
    if IsCharged(a, s, user) {
      var d := SinceDeadline(a, s.date);
      ChargeIsCeiling(d);
      UpsertLookup(used, enrollment, a.id, Charge(d), a.id);
      UpsertLookup(used, enrollment, a.id, Charge(d), x);
    }
  }

  // ---------- runs ----------

  /** A submission that is recorded; for a rebuild the slip days are left alone. */
  datatype Event = Event(assignment: Assignment, submission: Submission, rebuild: bool)

  function After(events: seq<Event>, enrollment: nat, user: nat): seq<Used> {
    if |events| == 0 then []
    else
      var e, used := events[|events| - 1], After(events[..|events| - 1], enrollment, user);
      if e.rebuild then used else Recorded(used, enrollment, user, e.assignment, e.submission)
  }

  /** The submissions that count for the charge of assignment `a`. */
  predicate Counts(e: Event, user: nat, a: nat) {
    !e.rebuild && e.assignment.id == a && IsCharged(e.assignment, e.submission, user)
  }

  /** At every point of a run there is at most one entry per assignment, and it holds the charge for the
      last submission that counts: rebuilds, approved submissions, submissions in time and submissions that
      reach the limit leave the charge as it was, and so do submissions for other assignments. */
  lemma {:induction false} ChargedForTheLast(events: seq<Event>, enrollment: nat, user: nat, a: nat)
    ensures OneEntryEach(After(events, enrollment, user))
    ensures Lookup(After(events, enrollment, user), a) == LastCharge(events, user, a)
  {
    if |events| > 0 {
      var front, e := events[..|events| - 1], events[|events| - 1];
      ChargedForTheLast(front, enrollment, user, a);
      if !e.rebuild && IsCharged(e.assignment, e.submission, user) {
        var used, days := After(front, enrollment, user), Charge(SinceDeadline(e.assignment, e.submission.date));
        UpsertKeepsOneEntryEach(used, enrollment, e.assignment.id, days);
        UpsertLookup(used, enrollment, e.assignment.id, days, a);
      }
    }
  }

  /** A submission counts exactly if it is no rebuild, is for this assignment, and is too low, not approved and late. */
  lemma CountsExactlyWhen(e: Event, user: nat, a: nat)
    ensures Counts(e, user, a) <==>
            && !e.rebuild && e.assignment.id == a && e.submission.date > e.assignment.deadline
            && e.submission.score < e.assignment.scoreLimit && user !in e.submission.approved
  {
  }

  /** An event that does not count leaves the charge alone, whatever happened before. */
  lemma OthersLeaveAlone(events: seq<Event>, e: Event, enrollment: nat, user: nat, a: nat)
    requires e.rebuild || e.assignment.id != a || e.submission.date <= e.assignment.deadline
             || e.submission.score >= e.assignment.scoreLimit || user in e.submission.approved
    ensures Lookup(After(events + [e], enrollment, user), a) == Lookup(After(events, enrollment, user), a)
  {
    assert (events + [e])[..|events|] == events;
    if !e.rebuild {
      ChargedExactlyWhen(After(events, enrollment, user), enrollment, user, e.assignment, e.submission, a);
    }
  }

  function LastCharge(events: seq<Event>, user: nat, a: nat): Option {
    if |events| == 0 then None
    else if Counts(events[|events| - 1], user, a)
      then Some(Charge(SinceDeadline(events[|events| - 1].assignment, events[|events| - 1].submission.date)))
    else LastCharge(events[..|events| - 1], user, a)
  }

  /** The deadline stays the same, and no submission that is not a rebuild is older than one before it. */
  ghost predicate InOrder(events: seq<Event>, a: nat) {
    forall i, j :: 0 <= i < j < |events| && !events[i].rebuild && !events[j].rebuild
                   && events[i].assignment.id == events[j].assignment.id == a ==>
      && events[i].assignment.deadline == events[j].assignment.deadline
      && events[i].submission.date <= events[j].submission.date
  }

  /** A charge stems from one of the submissions. */
  lemma {:induction false} ChargeHasCause(events: seq<Event>, user: nat, a: nat) returns (i: nat)
    requires LastCharge(events, user, a).Some?
    ensures i < |events| && Counts(events[i], user, a)
    ensures LastCharge(events, user, a) == Some(Charge(SinceDeadline(events[i].assignment, events[i].submission.date)))
  {
    i := |events| - 1;
    if !Counts(events[i], user, a) {
      i := ChargeHasCause(events[..i], user, a);
    }
  }

  /** With a fixed deadline and submissions in order a charge never decreases. */
  lemma {:induction false} ChargeNeverDecreases(events: seq<Event>, enrollment: nat, user: nat, a: nat, k: nat)
    requires InOrder(events, a) && k <= |events|
    ensures DaysOf(Lookup(After(events[..k], enrollment, user), a)) <=
            DaysOf(Lookup(After(events, enrollment, user), a))
    decreases |events|
  {
    var n := |events|;
    if k == n {
      assert events[..k] == events;
    } else {
      var front, e := events[..n - 1], events[n - 1];
      assert front[..k] == events[..k];
      ChargeNeverDecreases(front, enrollment, user, a, k);
      ChargedForTheLast(events, enrollment, user, a);
      ChargedForTheLast(front, enrollment, user, a);
      if Counts(e, user, a) && LastCharge(front, user, a).Some? {
        var i := ChargeHasCause(front, user, a);
        assert events[i] == front[i];
        ChargeMonotone(SinceDeadline(events[i].assignment, events[i].submission.date),
                       SinceDeadline(e.assignment, e.submission.date));
      }
    }
  }

  /** One recorded submission lowers the charge of an assignment exactly if it is charged for, for this assignment,
      and its charge is below the one on record. */
  lemma ChargeDropsExactlyWhen(used: seq<Used>, enrollment: nat, user: nat, a: Assignment, s: Submission, x: nat)
    ensures DaysOf(Lookup(Recorded(used, enrollment, user, a, s), x)) < DaysOf(Lookup(used, x)) <==>
            && s.score < a.scoreLimit && user !in s.approved && s.date > a.deadline
            && a.id == x && Lookup(used, x).Some?
            && Charge(SinceDeadline(a, s.date)) < Lookup(used, x).days
  {
    if IsCharged(a, s, user) {
      UpsertLookup(used, enrollment, a.id, Charge(SinceDeadline(a, s.date)), x);
    }
  }

  /** At any point of a run the next event lowers the charge exactly if it counts, and its charge is below that of
      the last one that counted. */
  lemma NextEventLowersExactlyWhen(events: seq<Event>, e: Event, enrollment: nat, user: nat, a: nat)
    ensures DaysOf(Lookup(After(events + [e], enrollment, user), a)) <
            DaysOf(Lookup(After(events, enrollment, user), a)) <==>
            && !e.rebuild && e.assignment.id == a && e.submission.date > e.assignment.deadline
            && e.submission.score < e.assignment.scoreLimit && user !in e.submission.approved
            && LastCharge(events, user, a).Some?
            && Charge(SinceDeadline(e.assignment, e.submission.date)) < LastCharge(events, user, a).days
  {
    assert (events + [e])[..|events|] == events;
    ChargedForTheLast(events, enrollment, user, a);
    ChargedForTheLast(events + [e], enrollment, user, a);
  }

  /** Coming in out of order lowers it: the charge follows the last submission, not the latest. */
  lemma OutOfOrderLowersTheCharge(enrollment: nat, user: nat)
    ensures exists events: seq<Event> ::
      |events| == 2 &&
        DaysOf(Lookup(After(events, enrollment, user), 1)) < DaysOf(Lookup(After(events[..1], enrollment, user), 1))
  {
    var a := Assignment(1, 1, 0, 80);
    var late, early := Event(a, Submission(1, 3 * DAY, 0, {}), false), Event(a, Submission(1, DAY, 0, {}), false);
    var events := [late, early];
    ChargedForTheLast(events, enrollment, user, 1);
    ChargedForTheLast(events[..1], enrollment, user, 1);
    assert Charge(3 * DAY) == 3 && Charge(DAY) == 1;
    assert LastCharge(events, user, 1) == Some(1);
    assert LastCharge(events[..1], user, 1) == Some(3);
  }

  // ---------- what remains ----------

  function Sum(used: seq<Used>): nat {
    if |used| == 0 then 0 else Sum(used[..|used| - 1]) + used[|used| - 1].days
  }

  lemma {:induction false} SumFromFront(used: seq<Used>)
    requires |used| > 0
    ensures Sum(used) == used[0].days + Sum(used[1..])
  {
    if |used| > 1 {
      SumFromFront(used[..|used| - 1]);
      assert used[..|used| - 1][1..] == used[1..][..|used| - 2];
    }
  }

  /** Charging an assignment changes the sum by what the charge changes. */
  lemma {:induction false} UpsertSum(used: seq<Used>, enrollment: nat, a: nat, days: uint32)
    ensures Sum(Upsert(used, enrollment, a, days)) == Sum(used) + days - DaysOf(Lookup(used, a))
  {
    var after := Upsert(used, enrollment, a, days);
    SumFromFront(after);
    if |used| > 0 {
      SumFromFront(used);
      if used[0].assignment != a {
        UpsertSum(used[1..], enrollment, a, days);
      }
    }
  }

  /** A 32-bit word read as a signed number. */
  function ToInt32(x: uint32): int { if x < TWO_31 then x else x - TWO_32 }

  function Remaining(course: Course, used: seq<Used>): int { ToInt32((course.slipDays - Sum(used) % TWO_32) % TWO_32) }

  function SlipDaysRemaining(course: Course, used: seq<Used>): int {
    if Remaining(course, used) < 0 then 0 else Remaining(course, used)
  }

  lemma WrapsOnce(c: int, s: nat)
    ensures (c - s % TWO_32) % TWO_32 == (c - s) % TWO_32
  {
  }

  /** The signed number is the true difference exactly when that fits into 32 bits. */
  lemma RemainingExactlyWhen(course: Course, used: seq<Used>)
    ensures Remaining(course, used) == course.slipDays - Sum(used) <==> -TWO_31 <= course.slipDays - Sum(used) < TWO_31
  {
    WrapsOnce(course.slipDays, Sum(used));
  }

  lemma NegativeWraps(n: int)
    requires n >= 0
    ensures (-n) % TWO_32 == if n % TWO_32 == 0 then 0 else TWO_32 - n % TWO_32
  {
    var q, r := n / TWO_32, n % TWO_32;
    if r > 0 {
      assert -n == (-q - 1) * TWO_32 + (TWO_32 - r);
    }
  }

  /** What is shown is the true remainder, or zero if more has been used, exactly when either the remainder
      is below 2^31, or the excess is at most 2^31 after wrapping around. */
  lemma SlipDaysRemainingExactlyWhen(course: Course, used: seq<Used>)
    ensures var c, s := course.slipDays, Sum(used);
            SlipDaysRemaining(course, used) == (if s <= c then c - s else 0) <==>
            if s <= c then c - s < TWO_31 else (s - c) % TWO_32 <= TWO_31
  {
    var c, s := course.slipDays, Sum(used);
    WrapsOnce(c, s);
    if s > c {
      NegativeWraps(s - c);
      assert c - s == -(s - c);
    }
  }

  lemma {:induction false} SumBound(used: seq<Used>, most: nat)
    requires forall i :: 0 <= i < |used| ==> used[i].days <= most
    ensures Sum(used) <= |used| * most
  {
    if |used| > 0 {
      SumBound(used[..|used| - 1], most);
      assert |used| * most == (|used| - 1) * most + most;
    }
  }

  /** A list without repetitions is no longer than a set that contains it. */
  lemma {:induction false} EntriesBound(used: seq<Used>, assignments: set<nat>)
    requires OneEntryEach(used) && forall i :: 0 <= i < |used| ==> used[i].assignment in assignments
    ensures |used| <= |assignments|
  {
    if |used| > 0 {
      EntriesBound(used[1..], assignments - {used[0].assignment});
    }
  }

  lemma {:induction false} RunBounds(events: seq<Event>, enrollment: nat, user: nat, assignments: set<nat>)
    requires forall i :: 0 <= i < |events| ==> events[i].assignment.id in assignments
    ensures var used := After(events, enrollment, user);
            OneEntryEach(used) &&
            forall i :: 0 <= i < |used| ==> used[i].assignment in assignments && used[i].days < 106_753
  {
    ChargedForTheLast(events, enrollment, user, 0);
    var used := After(events, enrollment, user);
    forall i | 0 <= i < |used| ensures used[i].assignment in assignments && used[i].days < 106_753 {
      LookupFinds(used, i);
      ChargedForTheLast(events, enrollment, user, used[i].assignment);
      var j := ChargeHasCause(events, user, used[i].assignment);
    }
  }

  /** Over every run of a course with fewer than some 20,000 assignments, despite the unsigned subtraction and
      the signed reading, the slip days shown are what the course grants less what was charged, or zero. */
  lemma RemainingIsRight(events: seq<Event>, enrollment: nat, user: nat, assignments: set<nat>, course: Course)
    requires (forall i :: 0 <= i < |events| ==> events[i].assignment.id in assignments)
    requires |assignments| * 106_752 <= TWO_31
    requires course.slipDays < TWO_31
    ensures var used := After(events, enrollment, user);
            SlipDaysRemaining(course, used) == if Sum(used) <= course.slipDays then course.slipDays - Sum(used) else 0
  {
    var used := After(events, enrollment, user);
    RunBounds(events, enrollment, user, assignments);
    EntriesBound(used, assignments);
    SumBound(used, 106_752);
    SlipDaysRemainingExactlyWhen(course, used);
  }

  // ---------- enrolments in memory ----------

  class Enrollment {
    const id: nat
    const course: nat
    const user: nat
    var used: seq<Used>
    var remaining: int
    var totalApproved: nat

    constructor (id: nat, course: nat, user: nat, used: seq<Used>)
      ensures this.id == id && this.course == course && this.user == user && this.used == used
    {
      this.id, this.course, this.user, this.used := id, course, user, used;
      remaining, totalApproved := 0, 0;
    }

    /** `UpdateSlipDays`: an error if the enrolment, the assignment and the submission do not belong together. */
    method UpdateSlipDays(a: Assignment, s: Submission) returns (ok: bool)
      modifies this`used
      ensures ok <==> course == a.course && a.id == s.assignment
      ensures used == if ok then Recorded(old(used), id, user, a, s) else old(used)
    {
      if course != a.course {
        return false;
      }
      if a.id != s.assignment {
        return false;
      }
      var late := SinceDeadline(a, s.date);
      if s.score < a.scoreLimit && user !in s.approved && late > 0 {
        var days, hours := late / DAY, late % DAY;
        if hours > GRACE {
          days := days + 1;
        }
        InternalUpdateSlipDays(a.id, days);
      }
      ok := true;
    }

    method InternalUpdateSlipDays(a: nat, days: uint32)
      modifies this`used
      ensures used == Upsert(old(used), id, a, days)
    {
      for i := 0 to |used|
        invariant used == old(used)
        invariant Upsert(used, id, a, days) == used[..i] + Upsert(used[i..], id, a, days)
      {
        if used[i].assignment == a {
          assert Upsert(used[i..], id, a, days) == [used[i].(days := days)] + used[i + 1..];
          used := used[i := used[i].(days := days)];
          return;
        }
        assert used[i..][1..] == used[i + 1..];
      }
      used := used + [Used(a, id, days)];
    }

    method TotalSlipDays() returns (total: uint32)
      ensures total == Sum(used) % TWO_32
    {
      total := 0;
      for i := 0 to |used|
        invariant total == Sum(used[..i]) % TWO_32
      {
        assert used[..i + 1][..i] == used[..i];
        total := (total + used[i].days) % TWO_32;
      }
      assert used[..|used|] == used;
    }

    /** Zero for another course than the enrolment's. */
    method RemainingSlipDays(c: Course) returns (r: int)
      ensures r == if course == c.id then Remaining(c, used) else 0
    {
      if course != c.id {
        return 0;
      }
      var total := TotalSlipDays();
      r := ToInt32((c.slipDays - total) % TWO_32);
    }

    method SetSlipDays(c: Course)
      modifies this`remaining
      ensures remaining == if course == c.id then SlipDaysRemaining(c, used) else 0
    {
      var r := RemainingSlipDays(c);
      if r < 0 {
        remaining := 0;
      } else {
        remaining := r;
      }
    }

    /** The number of assignments with a submission that is approved for the user. */
    method UpdateTotalApproved(submissions: seq<Submission>)
      modifies this`totalApproved
      ensures totalApproved == |set s | s in submissions && user in s.approved :: s.assignment|
    {
      var total, seen: set<nat> := 0, {};
      for i := 0 to |submissions|
        invariant seen == set s | s in submissions[..i] && user in s.approved :: s.assignment
        invariant total == |seen|
      {
        assert submissions[..i + 1] == submissions[..i] + [submissions[i]];
        if submissions[i].assignment in seen {
          continue;
        }
        if user in submissions[i].approved {
          seen, total := seen + {submissions[i].assignment}, total + 1;
        }
      }
      assert submissions[..|submissions|] == submissions;
      totalApproved := total;
    }
  }

  /** `updateSlipDays` of a recorded run: all members of a group are charged, in order, until one of them
      does not belong to the assignment's course; what was charged before that is stored. */
  class Database {
    var used: map<nat, seq<Used>>

    constructor ()
      ensures used == map[]
    {
      used := map[];
    }

    predicate Belongs(e: Enrollment, a: Assignment, s: Submission) { e.course == a.course && a.id == s.assignment }

    /** What is stored for the other enrolments. */
    ghost function Others(id: nat): map<nat, seq<Used>>
      reads this
    {
      used - {id}
    }

    /** One member is charged and stored; it fails if he does not belong to the assignment's course, and then nothing
        changes, or if the write does, and then the charge may be stored or not. */
    method ChargeMember(e: Enrollment, a: Assignment, s: Submission) returns (ok: bool)
      modifies this, e
      ensures e.used == if Belongs(e, a, s) then Recorded(old(e.used), e.id, e.user, a, s) else old(e.used)
      ensures Others(e.id) == old(Others(e.id))
      ensures ok ==> Belongs(e, a, s) && e.id in used && used[e.id] == e.used
      ensures !ok ==> used == old(used) || (Belongs(e, a, s) && e.id in used && used[e.id] == e.used)
    {
      ok := e.UpdateSlipDays(a, s);
      if ok {
        ok := *;
        var stored: bool := *;
        if ok || stored {
          used := used[e.id := e.used];
        }
      }
    }

    /** The members before `done` are charged and stored; if it stops at one of them, those after him are untouched. */
    method UpdateSlipDays(enrollments: seq<Enrollment>, a: Assignment, s: Submission)
      returns (ok: bool, ghost done: nat)
      requires DistinctIds(enrollments)
      modifies this, enrollments
      ensures done <= |enrollments| && (ok <==> done == |enrollments|)
      ensures forall j :: 0 <= j < done ==> Belongs(enrollments[j], a, s)
      ensures forall j :: 0 <= j < |enrollments| && (j < done || (j == done && Belongs(enrollments[j], a, s))) ==>
                enrollments[j].used == Recorded(old(enrollments[j].used), enrollments[j].id, enrollments[j].user, a, s)
      ensures forall j :: 0 <= j < done ==> enrollments[j].id in used && used[enrollments[j].id] == enrollments[j].used
      ensures forall j :: 0 <= j < |enrollments| && (j > done || (j == done && !Belongs(enrollments[j], a, s))) ==>
                enrollments[j].used == old(enrollments[j].used)
      ensures var seen := Ids(enrollments[..if ok then done else done + 1]); used - seen == old(used) - seen
    {
      hide Recorded, Belongs, Ids;
      done := 0;
      for i := 0 to |enrollments|
        invariant done == i
        invariant forall j :: 0 <= j < i ==> Belongs(enrollments[j], a, s)
        invariant forall j :: 0 <= j < i ==>
                    enrollments[j].used ==
                      Recorded(old(enrollments[j].used), enrollments[j].id, enrollments[j].user, a, s)
        invariant forall j :: 0 <= j < i ==> enrollments[j].id in used && used[enrollments[j].id] == enrollments[j].used
        invariant forall j :: i <= j < |enrollments| ==> enrollments[j].used == old(enrollments[j].used)
        invariant used - Ids(enrollments[..i]) == old(used) - Ids(enrollments[..i])
      {
        var e := enrollments[i];
        ghost var before := used;
        ok := ChargeMember(e, a, s);
        OthersStay(before, used, e.id);
        IdsSnoc(enrollments, i);
        FewerStay(old(used), before, used, Ids(enrollments[..i]), e.id);
        if !ok {
          return;
        }
        done := done + 1;
      }
      ok := true;
    }
  }

  function Ids(enrollments: seq<Enrollment>): set<nat> { set e | e in enrollments :: e.id }

  ghost predicate DistinctIds(enrollments: seq<Enrollment>) {
    forall i, j :: 0 <= i < j < |enrollments| ==> enrollments[i].id != enrollments[j].id
  }

  lemma IdsSnoc(enrollments: seq<Enrollment>, i: nat)
    requires i < |enrollments|
    ensures Ids(enrollments[..i + 1]) == Ids(enrollments[..i]) + {enrollments[i].id}
  {
    assert enrollments[..i + 1] == enrollments[..i] + [enrollments[i]];
  }

  lemma OthersStay(before: map<nat, seq<Used>>, after: map<nat, seq<Used>>, id: nat)
    requires after - {id} == before - {id}
    ensures forall x :: x != id ==> (x in after <==> x in before) && (x in before ==> after[x] == before[x])
  {
    assert forall x :: x != id ==> (x in after <==> x in after - {id}) && (x in before <==> x in before - {id});
    assert forall x :: x in before - {id} ==> (after - {id})[x] == (before - {id})[x];
  }

  lemma FewerStay(start: map<nat, seq<Used>>, before: map<nat, seq<Used>>, after: map<nat, seq<Used>>, seen: set<nat>,
                  id: nat)
    requires before - seen == start - seen && after - {id} == before - {id}
    ensures after - (seen + {id}) == start - (seen + {id})
  {
    assert after - (seen + {id}) == (after - {id}) - seen;
    assert start - (seen + {id}) == (start - seen) - {id};
  }
}
