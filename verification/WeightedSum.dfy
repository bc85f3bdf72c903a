/** The grade computed from extracted scores (kit/score/results.go:81-124), over the reals. */
module WeightedSum {
  import opened ScoreResults
  import opened Sequences

  /** What the source demands of the scores it sums ("must only be called after Validate"). A score
      may still be -1 (a duplicate) or above its maximum. */
  predicate Summable(scores: seq<Score>) {
    forall i :: 0 <= i < |scores| ==> scores[i].maxScore > 0 && scores[i].weight > 0
  }

  function InTask(task: string): Score -> bool {
    (sc: Score) => task == "" || sc.taskName == task
  }

  /** The scores of one task, or all scores when the name is empty. */
  function ForTask(scores: seq<Score>, task: string): seq<Score> {
    Filter(InTask(task), scores)
  }

  function Clamped(sc: Score): (c: int)
    requires sc.maxScore > 0
    ensures 0 <= c <= sc.maxScore
    ensures 0 <= sc.score <= sc.maxScore ==> c == sc.score
  {
    var s := if sc.score > 0 then sc.score else 0;
    if s > sc.maxScore then sc.maxScore else s
  }

  function Fraction(sc: Score): real
    requires sc.maxScore > 0
  {
    Clamped(sc) as real / sc.maxScore as real
  }

  lemma FractionInRange(sc: Score)
    requires sc.maxScore > 0
    ensures 0.0 <= Fraction(sc) <= 1.0
    ensures Fraction(sc) == 1.0 <==> sc.score >= sc.maxScore
  {
    var c, m := Clamped(sc) as real, sc.maxScore as real;
    QuotientOrder(0.0, c, m);
    QuotientOrder(c, m, m);
  }

  // ---------- arithmetic over the reals ----------

  lemma ScaleLess(a: real, b: real, k: real)
    requires a < b && k > 0.0
    ensures a * k < b * k
  {
  }

  /** Dividing by a positive number keeps the order, and undoes multiplying by it. */
  lemma QuotientOrder(p: real, q: real, w: real)
    requires w > 0.0 && p <= q
    ensures p / w <= q / w && (p / w == q / w <==> p == q)
    ensures p / w * w == p && 0.0 / w == 0.0 && w / w == 1.0
  {
    var x, y := p / w, q / w;
    assert x * w == p && y * w == q;
    if y < x {
      ScaleLess(y, x, w);
    }
  }

  lemma Divide(q: real, k: real, p: real)
    requires k > 0.0 && q * k == p
    ensures q == p / k
  {
    var r := p / k;
    QuotientOrder(p, p, k);
    if q < r {
      ScaleLess(q, r, k);
    } else if r < q {
      ScaleLess(r, q, k);
    }
  }

  lemma CancelWeight(f: real, w: real, total: real)
    requires total > 0.0
    ensures f * (w / total) * total == f * w
  {
    QuotientOrder(w, w, total);
  }

  lemma Distribute(a: real, b: real, k: real)
    ensures (a + b) * k == a * k + b * k
  {
  }

  lemma ScaleInRange(f: real, w: real)
    requires 0.0 <= f <= 1.0 && w > 0.0
    ensures 0.0 <= f * w <= w && (f * w == w <==> f == 1.0)
  {
    if f < 1.0 {
      ScaleLess(f, 1.0, w);
    }
  }

  lemma ScaleMonotone(a: real, b: real, k: real)
    requires a <= b && k > 0.0
    ensures a * k <= b * k
  {
    if a < b {
      ScaleLess(a, b, k);
    }
  }

  // ---------- weights, points and totals ----------

  function Weight(scores: seq<Score>): real {
    if |scores| == 0 then 0.0 else Weight(scores[..|scores| - 1]) + scores[|scores| - 1].weight as real
  }

  /** The weighted points: each test contributes its weight times the fraction of its maximum. */
  function Points(scores: seq<Score>): real
    requires Summable(scores)
  {
    if |scores| == 0 then 0.0
    else Points(scores[..|scores| - 1]) + Contribution(scores[|scores| - 1])
  }

  function Contribution(sc: Score): real
    requires sc.maxScore > 0
  {
    Fraction(sc) * sc.weight as real
  }

  lemma ContributionInRange(sc: Score)
    requires sc.maxScore > 0 && sc.weight > 0
    ensures 0.0 <= Contribution(sc) <= sc.weight as real
    ensures Contribution(sc) == sc.weight as real <==> sc.score >= sc.maxScore
  {
    FractionInRange(sc);
    hide Fraction, Clamped;
    var f, w := Fraction(sc), sc.weight as real;
    ScaleInRange(f, w);
    assert Contribution(sc) == f * w;
  }

  lemma FractionMonotone(high: Score, low: Score)
    requires high.maxScore == low.maxScore > 0 && high.score >= low.score
    ensures Fraction(high) >= Fraction(low)
  {
    QuotientOrder(Clamped(low) as real, Clamped(high) as real, low.maxScore as real);
  }

  lemma ContributionMonotone(high: Score, low: Score)
    requires high.maxScore == low.maxScore > 0 && high.weight == low.weight > 0 && high.score >= low.score
    ensures Contribution(high) >= Contribution(low)
  {
    FractionMonotone(high, low);
    hide Fraction;
    var a, b, k := Fraction(low), Fraction(high), low.weight as real;
    ScaleMonotone(a, b, k);
    assert Contribution(low) == a * k;
    assert Contribution(high) == b * k;
  }

  /** The sum the source's loop forms: one weighted score at a time, against a fixed total weight. */
  function Total(scores: seq<Score>, totalWeight: real): real
    requires Summable(scores) && totalWeight > 0.0
  {
    if |scores| == 0 then 0.0
    else Total(scores[..|scores| - 1], totalWeight) + WeightedScore(scores[|scores| - 1], totalWeight)
  }

  function WeightedScore(sc: Score, totalWeight: real): real
    requires sc.maxScore > 0 && totalWeight > 0.0
  {
    Fraction(sc) * (sc.weight as real / totalWeight)
  }

  lemma {:induction false} WeightIsPositive(scores: seq<Score>)
    requires Summable(scores)
    ensures Weight(scores) >= 0.0 && (|scores| > 0 ==> Weight(scores) > 0.0)
  {
    if |scores| > 0 {
      WeightIsPositive(scores[..|scores| - 1]);
    }
  }

  lemma FilterSummable(scores: seq<Score>, task: string)
    requires Summable(scores)
    ensures Summable(ForTask(scores, task))
  {
    FilterMembers(InTask(task), scores);
    assert forall i :: 0 <= i < |ForTask(scores, task)| ==> ForTask(scores, task)[i] in scores;
  }

  /** The total of the chosen scores, in the range 0..1. */
  function Grade(scores: seq<Score>): real
    requires Summable(scores)
  {
    WeightIsPositive(scores);
    if |scores| == 0 then 0.0 else Points(scores) / Weight(scores)
  }

  lemma WeightSnoc(scores: seq<Score>, sc: Score)
    ensures Weight(scores + [sc]) == Weight(scores) + sc.weight as real
  {
    assert (scores + [sc])[..|scores|] == scores;
  }

  lemma TotalSnoc(scores: seq<Score>, i: nat, totalWeight: real)
    requires Summable(scores) && totalWeight > 0.0 && i < |scores|
    ensures Total(scores[..i + 1], totalWeight) ==
            Total(scores[..i], totalWeight) + WeightedScore(scores[i], totalWeight)
  {
    assert scores[..i + 1][..i] == scores[..i];
  }

  /** The entries the first loop appends for one score. */
  predicate Appended(sc: Score, score: real, maxScore: real, weight: real) {
    && score == (if sc.score > 0 then sc.score else 0) as real
    && maxScore == sc.maxScore as real
    && weight == sc.weight as real
  }

  lemma WeightedScoreOf(sc: Score, score: real, maxScore: real, weight: real, totalWeight: real)
    requires sc.maxScore > 0 && totalWeight > 0.0 && Appended(sc, score, maxScore, weight)
    ensures WeightedScore(sc, totalWeight)
            == ((if score > maxScore then maxScore else score) / maxScore) * (weight / totalWeight)
  {
  }

  /** `internalSum`: the total in the range 0..1 and the total weight, for one task or for all. */
  method InternalSum(scores: seq<Score>, task: string) returns (total: real, totalWeight: real)
    requires Summable(scores)
    ensures totalWeight == Weight(ForTask(scores, task))
    ensures Summable(ForTask(scores, task))
    ensures total == Grade(ForTask(scores, task))
  {
    hide Weight, Total, Points, WeightedScore, Filter, Appended;
    totalWeight := 0.0;
    var maxScore, score, weight: seq<real> := [], [], [];
    ghost var chosen: seq<Score> := [];
    NothingYet(task);
    for i := 0 to |scores|
      invariant chosen == Filter(InTask(task), scores[..i]) && totalWeight == Weight(chosen)
      invariant |maxScore| == |score| == |weight| == |chosen|
      invariant Summable(chosen)
      invariant forall k :: 0 <= k < |maxScore| ==> maxScore[k] > 0.0
      invariant forall k :: 0 <= k < |chosen| ==> Appended(chosen[k], score[k], maxScore[k], weight[k])
    {
      FilterSnoc(InTask(task), scores, i);
      var ts := scores[i];
      if task != "" && task != ts.taskName {
        continue;
      }
      var testScore := if ts.score > 0 then ts.score else 0;
      totalWeight := totalWeight + ts.weight as real;
      weight := weight + [ts.weight as real];
      score := score + [testScore as real];
      maxScore := maxScore + [ts.maxScore as real];
      AppendedNow(ts, testScore as real, ts.maxScore as real, ts.weight as real);
      WeightSnoc(chosen, ts);
      chosen := chosen + [ts];
    }
    assert scores[..|scores|] == scores;
    WeightIsPositive(chosen);
    total := 0.0;
    if |chosen| > 0 {
      assert chosen[..0] == [];
      NoTotal(totalWeight);
    }
    for i := 0 to |score|
      invariant |chosen| > 0 ==> total == Total(chosen[..i], totalWeight)
      invariant |chosen| == 0 ==> total == 0.0
    {
      var s := if score[i] > maxScore[i] then maxScore[i] else score[i];
      TotalSnoc(chosen, i, totalWeight);
      WeightedScoreOf(chosen[i], score[i], maxScore[i], weight[i], totalWeight);
      assert WeightedScore(chosen[i], totalWeight) == (s / maxScore[i]) * (weight[i] / totalWeight);
      total := total + (s / maxScore[i]) * (weight[i] / totalWeight);
    }
    assert chosen[..|chosen|] == chosen;
    if |chosen| > 0 {
      TotalTimesWeight(chosen, totalWeight);
      Divide(total, totalWeight, Points(chosen));
    }
  }

  lemma NothingYet(task: string)
    ensures Filter(InTask(task), []) == [] && Weight([]) == 0.0
  {
  }

  lemma NoTotal(totalWeight: real)
    requires totalWeight > 0.0
    ensures Total([], totalWeight) == 0.0
  {
  }

  lemma AppendedNow(sc: Score, score: real, maxScore: real, weight: real)
    requires score == (if sc.score > 0 then sc.score else 0) as real
    requires maxScore == sc.maxScore as real && weight == sc.weight as real
    ensures Appended(sc, score, maxScore, weight)
  {
  }

  lemma WeightedScoreTimesWeight(sc: Score, totalWeight: real)
    requires sc.maxScore > 0 && totalWeight > 0.0
    ensures WeightedScore(sc, totalWeight) * totalWeight == Contribution(sc)
  {
    hide Fraction;
    var f, w := Fraction(sc), sc.weight as real;
    CancelWeight(f, w, totalWeight);
    assert WeightedScore(sc, totalWeight) == f * (w / totalWeight) && Contribution(sc) == f * w;
  }

  lemma {:induction false} TotalTimesWeight(scores: seq<Score>, totalWeight: real)
    requires Summable(scores) && totalWeight > 0.0
    ensures Total(scores, totalWeight) * totalWeight == Points(scores)
  {
    if |scores| > 0 {
      hide WeightedScore, Contribution;
      var front, last := scores[..|scores| - 1], scores[|scores| - 1];
      TotalTimesWeight(front, totalWeight);
      WeightedScoreTimesWeight(last, totalWeight);
      var t, p := Total(front, totalWeight), WeightedScore(last, totalWeight);
      Distribute(t, p, totalWeight);
      assert Total(scores, totalWeight) == t + p;
    }
  }

  // ---------- the grade ----------

  /** `math.Round` of a value that is never negative. */
  function Round(x: real): int { (x + 0.5).Floor }

  /** The nearest whole number, the upper one of two. */
  lemma RoundIsNearest(x: real)
    ensures Round(x) as real - 0.5 <= x < Round(x) as real + 0.5
  {
  }

  method TaskSum(scores: seq<Score>, task: string) returns (sum: int)
    requires Summable(scores)
    ensures Summable(ForTask(scores, task))
    ensures sum == Round(Grade(ForTask(scores, task)) * 100.0)
    ensures 0 <= sum <= 100
  {
    var total, _ := InternalSum(scores, task);
    GradeInRange(ForTask(scores, task));
    sum := Round(total * 100.0);
  }

  method Sum(scores: seq<Score>) returns (sum: int)
    requires Summable(scores)
    ensures sum == Round(Grade(scores) * 100.0)
    ensures 0 <= sum <= 100
  {
    FilterAll(InTask(""), scores);
    sum := TaskSum(scores, "");
  }

  predicate AllAtMax(scores: seq<Score>) {
    forall i :: 0 <= i < |scores| ==> scores[i].score >= scores[i].maxScore
  }

  lemma {:induction false} PointsInRange(scores: seq<Score>)
    requires Summable(scores)
    ensures 0.0 <= Points(scores) <= Weight(scores)
    ensures Points(scores) == Weight(scores) <==> AllAtMax(scores)
  {
    if |scores| > 0 {
      hide Contribution;
      var front, last := scores[..|scores| - 1], scores[|scores| - 1];
      PointsInRange(front);
      ContributionInRange(last);
      assert scores == front + [last];
      assert AllAtMax(scores) <==> AllAtMax(front) && last.score >= last.maxScore;
    }
  }

  /** The grade lies in 0..1, and is 1 exactly when there are tests and each reached its maximum. */
  lemma GradeInRange(scores: seq<Score>)
    requires Summable(scores)
    ensures 0.0 <= Grade(scores) <= 1.0
    ensures Grade(scores) == 1.0 <==> |scores| > 0 && AllAtMax(scores)
  {
    hide Points, Weight, AllAtMax;
    WeightIsPositive(scores);
    PointsInRange(scores);
    if |scores| > 0 {
      QuotientOrder(0.0, Points(scores), Weight(scores));
      QuotientOrder(Points(scores), Weight(scores), Weight(scores));
    }
  }

  // ---------- monotonicity ----------

  /** The same tests, with scores at least as high. */
  predicate AtLeast(high: seq<Score>, low: seq<Score>) {
    && |high| == |low|
    && forall i :: 0 <= i < |low| ==>
         high[i].score >= low[i].score && high[i].maxScore == low[i].maxScore && high[i].weight == low[i].weight
  }

  lemma {:induction false} PointsMonotone(high: seq<Score>, low: seq<Score>)
    requires Summable(low) && AtLeast(high, low)
    ensures Summable(high) && Points(high) >= Points(low) && Weight(high) == Weight(low)
  {
    if |low| > 0 {
      hide Contribution;
      var n := |low| - 1;
      PointsMonotone(high[..n], low[..n]);
      ContributionMonotone(high[n], low[n]);
    }
  }

  /** Raising scores never lowers the grade or the rounded sum. */
  lemma GradeMonotone(high: seq<Score>, low: seq<Score>)
    requires Summable(low) && AtLeast(high, low)
    ensures Summable(high) && Grade(high) >= Grade(low)
    ensures Round(Grade(high) * 100.0) >= Round(Grade(low) * 100.0)
  {
    hide Points, Weight;
    PointsMonotone(high, low);
    WeightIsPositive(low);
    if |low| > 0 {
      QuotientOrder(Points(low), Points(high), Weight(low));
    }
  }

  // ---------- what one test contributes ----------

  lemma DifferenceOfFractions(a: real, b: real, m: real, w: real)
    requires m > 0.0
    ensures (a / m) * w - (b / m) * w == (a - b) / m * w
  {
    var x, y := a / m, b / m;
    QuotientOrder(a, a, m);
    QuotientOrder(b, b, m);
    Distribute(x, -y, m);
    assert (x - y) * m == a - b;
    Divide(x - y, m, a - b);
    Distribute(x, -y, w);
  }

  /** The test's weight times the change of its score, relative to the maximum. */
  function Gain(sc: Score, score: int): real
    requires sc.maxScore > 0
  {
    (score as real - sc.score as real) / sc.maxScore as real * sc.weight as real
  }

  lemma ContributionChanges(sc: Score, score: int)
    requires sc.maxScore > 0 && 0 <= sc.score <= sc.maxScore && 0 <= score <= sc.maxScore
    ensures Contribution(sc.(score := score)) - Contribution(sc) == Gain(sc, score)
  {
    DifferenceOfFractions(score as real, sc.score as real, sc.maxScore as real, sc.weight as real);
  }

  /** The points are linear in each score: changing a score within its range changes the points by the test's
      weight times the change, relative to the maximum. */
  lemma {:induction false} PointsAreLinear(scores: seq<Score>, i: nat, score: int)
    requires Summable(scores) && i < |scores|
    requires 0 <= scores[i].score <= scores[i].maxScore && 0 <= score <= scores[i].maxScore
    ensures var changed := scores[i := scores[i].(score := score)];
            && Summable(changed) && Weight(changed) == Weight(scores)
            && Points(changed) == Points(scores) + Gain(scores[i], score)
    decreases |scores|
  {
    hide Contribution, Gain;
    var changed := scores[i := scores[i].(score := score)];
    var front, last := scores[..|scores| - 1], scores[|scores| - 1];
    if i < |front| {
      PointsAreLinear(front, i, score);
      assert changed[..|scores| - 1] == front[i := front[i].(score := score)];
    } else {
      assert changed[..|scores| - 1] == front;
      ContributionChanges(last, score);
    }
  }

  /** A single test is graded by its score relative to the maximum. */
  lemma GradeOfOneTest(sc: Score)
    requires sc.maxScore > 0 && sc.weight > 0 && 0 <= sc.score <= sc.maxScore
    ensures Grade([sc]) == sc.score as real / sc.maxScore as real
  {
    var f, w := Fraction(sc), sc.weight as real;
    assert [sc][..0] == [] && Weight([sc]) == w;
    assert Points([sc]) == f * w;
    Divide(f, w, Points([sc]));
  }

  // ---------- splitting by task ----------

  function SumOver(tasks: seq<string>, f: string -> real): real {
    if |tasks| == 0 then 0.0 else SumOver(tasks[..|tasks| - 1], f) + f(tasks[|tasks| - 1])
  }

  predicate EachOnce(tasks: seq<string>) {
    && "" !in tasks
    && forall i, j :: 0 <= i < j < |tasks| ==> tasks[i] != tasks[j]
  }

  function PointsOf(scores: seq<Score>, task: string): real
    requires Summable(scores)
  {
    FilterSummable(scores, task);
    Points(ForTask(scores, task))
  }

  function TaskPoints(scores: seq<Score>): string -> real
    requires Summable(scores)
  {
    task => PointsOf(scores, task)
  }

  function TaskWeight(scores: seq<Score>): string -> real {
    task => Weight(ForTask(scores, task))
  }

  /** One more score adds its value to its own task and to no other. */
  lemma {:induction false} OneTaskChanges(tasks: seq<string>, f: string -> real, g: string -> real, task: string,
                                          d: real)
    requires EachOnce(tasks)
    requires f(task) == g(task) + d && forall t :: t in tasks && t != task ==> f(t) == g(t)
    ensures SumOver(tasks, f) == SumOver(tasks, g) + if task in tasks then d else 0.0
  {
    if |tasks| > 0 {
      var front, last := tasks[..|tasks| - 1], tasks[|tasks| - 1];
      OneTaskChanges(front, f, g, task, d);
      assert forall t :: t in front ==> t != last;
    }
  }

  lemma {:induction false} SumOfZeroes(tasks: seq<string>, f: string -> real)
    requires forall t :: t in tasks ==> f(t) == 0.0
    ensures SumOver(tasks, f) == 0.0
  {
    if |tasks| > 0 {
      SumOfZeroes(tasks[..|tasks| - 1], f);
    }
  }

  lemma ForTaskSnoc(scores: seq<Score>, sc: Score, task: string)
    ensures ForTask(scores + [sc], task) == ForTask(scores, task) +
            if sc.taskName == task || task == "" then [sc] else []
  {
    FilterConcat(InTask(task), scores, [sc]);
  }

  lemma PointsSnoc(scores: seq<Score>, sc: Score)
    requires Summable(scores + [sc]) && Summable(scores) && sc.maxScore > 0
    ensures Points(scores + [sc]) == Points(scores) + Contribution(sc)
  {
    assert (scores + [sc])[..|scores|] == scores;
  }

  lemma TaskSnoc(scores: seq<Score>, sc: Score, task: string)
    requires Summable(scores + [sc]) && Summable(scores) && sc.maxScore > 0 && task != ""
    ensures Weight(ForTask(scores + [sc], task)) == Weight(ForTask(scores, task)) +
            if task == sc.taskName then sc.weight as real else 0.0
    ensures PointsOf(scores + [sc], task) == PointsOf(scores, task) +
              if task == sc.taskName then Contribution(sc) else 0.0
  {
    hide Contribution, Filter, Points, Weight;
    ForTaskSnoc(scores, sc, task);
    FilterSummable(scores + [sc], task);
    FilterSummable(scores, task);
    assert ForTask(scores, task) + [] == ForTask(scores, task);
    if task == sc.taskName {
      WeightSnoc(ForTask(scores, task), sc);
      PointsSnoc(ForTask(scores, task), sc);
    }
  }

  /** Adding one score changes the sums over the tasks by what it adds to its own task. */
  lemma SplitSnoc(scores: seq<Score>, sc: Score, tasks: seq<string>)
    requires Summable(scores + [sc]) && Summable(scores) && sc.maxScore > 0
    requires EachOnce(tasks) && sc.taskName in tasks
    ensures SumOver(tasks, TaskPoints(scores + [sc])) == SumOver(tasks, TaskPoints(scores)) + Contribution(sc)
    ensures SumOver(tasks, TaskWeight(scores + [sc])) == SumOver(tasks, TaskWeight(scores)) + sc.weight as real
  {
    hide Contribution, PointsOf, ForTask, Weight, SumOver;
    forall task | task in tasks
      ensures TaskWeight(scores + [sc])(task) == TaskWeight(scores)(task) +
              if task == sc.taskName then sc.weight as real else 0.0
      ensures TaskPoints(scores + [sc])(task) == TaskPoints(scores)(task) +
                if task == sc.taskName then Contribution(sc) else 0.0
    {
      TaskSnoc(scores, sc, task);
    }
    OneTaskChanges(tasks, TaskPoints(scores + [sc]), TaskPoints(scores), sc.taskName, Contribution(sc));
    OneTaskChanges(tasks, TaskWeight(scores + [sc]), TaskWeight(scores), sc.taskName, sc.weight as real);
  }

  /** When every test belongs to one of the tasks, the points and the weights add up task by task. */
  lemma {:induction false} PointsSplitByTask(scores: seq<Score>, tasks: seq<string>)
    requires Summable(scores) && EachOnce(tasks)
    requires forall i :: 0 <= i < |scores| ==> scores[i].taskName in tasks
    ensures SumOver(tasks, TaskPoints(scores)) == Points(scores)
    ensures SumOver(tasks, TaskWeight(scores)) == Weight(scores)
  {
    hide Contribution, EachOnce, TaskPoints, TaskWeight, SumOver;
    if |scores| == 0 {
      NothingToSplit(tasks);
      assert scores == [];
    } else {
      var front, last := scores[..|scores| - 1], scores[|scores| - 1];
      assert scores == front + [last];
      PointsSplitByTask(front, tasks);
      SplitSnoc(front, last, tasks);
    }
  }

  lemma NothingToSplit(tasks: seq<string>)
    ensures SumOver(tasks, TaskPoints([])) == 0.0 && SumOver(tasks, TaskWeight([])) == 0.0
  {
    assert forall task :: TaskPoints([])(task) == 0.0 && TaskWeight([])(task) == 0.0;
    SumOfZeroes(tasks, TaskPoints([]));
    SumOfZeroes(tasks, TaskWeight([]));
  }

  /** The total of one task times the weight of that task. */
  function ShareOf(scores: seq<Score>, task: string): real
    requires Summable(scores)
  {
    FilterSummable(scores, task);
    Grade(ForTask(scores, task)) * Weight(ForTask(scores, task))
  }

  function TaskShare(scores: seq<Score>): string -> real
    requires Summable(scores)
  {
    task => ShareOf(scores, task)
  }

  lemma {:induction false} SumOverEqual(tasks: seq<string>, f: string -> real, g: string -> real)
    requires forall t :: t in tasks ==> f(t) == g(t)
    ensures SumOver(tasks, f) == SumOver(tasks, g)
  {
    if |tasks| > 0 {
      SumOverEqual(tasks[..|tasks| - 1], f, g);
    }
  }

  lemma ShareIsPoints(scores: seq<Score>, task: string)
    requires Summable(scores)
    ensures ShareOf(scores, task) == PointsOf(scores, task)
  {
    hide Grade, Points, Weight, Filter;
    FilterSummable(scores, task);
    GradeTimesWeight(ForTask(scores, task));
  }

  lemma GradeTimesWeight(scores: seq<Score>)
    requires Summable(scores)
    ensures Grade(scores) * Weight(scores) == Points(scores)
  {
    WeightIsPositive(scores);
    if |scores| > 0 {
      hide Points, Weight;
      QuotientOrder(Points(scores), Points(scores), Weight(scores));
    }
  }

  /** The whole total times the total weight equals the sum over tasks of task total times task weight. */
  lemma GradeSplitsByTask(scores: seq<Score>, tasks: seq<string>)
    requires Summable(scores) && EachOnce(tasks)
    requires forall i :: 0 <= i < |scores| ==> scores[i].taskName in tasks
    ensures Grade(scores) * Weight(scores) == SumOver(tasks, TaskShare(scores))
  {
    hide Points, Weight, Grade, SumOver, ShareOf, PointsOf;
    GradeTimesWeight(scores);
    PointsSplitByTask(scores, tasks);
    forall task | task in tasks ensures TaskShare(scores)(task) == TaskPoints(scores)(task) {
      ShareIsPoints(scores, task);
    }
    SumOverEqual(tasks, TaskShare(scores), TaskPoints(scores));
  }

  // ---------- from extraction to grade ----------

  predicate SummableTable(t: Table) {
    forall name :: name in t.scores ==> t.scores[name].maxScore > 0 && t.scores[name].weight > 0
  }

  lemma {:induction false} AddAllSummable(t: Table, scs: seq<Score>)
    requires SummableTable(t) && Summable(scs)
    ensures SummableTable(AddAll(t, scs))
  {
    if |scs| > 0 {
      AddAllSummable(t, scs[..|scs| - 1]);
    }
  }

  lemma {:induction false} AcceptedSummable(lines: seq<string>, secret: string, decode: string -> Decoded,
                                            expected: seq<Score>)
    ensures Summable(Accepted(lines, secret, decode, expected))
  {
    if |lines| > 0 {
      ParseAccepts(lines[|lines| - 1], secret, decode);
      hide Parse, TestNames;
      AcceptedSummable(lines[..|lines| - 1], secret, decode, expected);
    }
  }

  /** Whatever a test run prints, what is extracted from it can be summed: parsed lines are validated
      and the expected tests are well-formed, so a grade always exists. */
  lemma ExtractedIsSummable(lines: seq<string>, secret: string, decode: string -> Decoded, expected: seq<Score>)
    requires Summable(expected)
    ensures Summable(Slice(FinalTable(lines, secret, decode, expected)))
  {
    hide Accepted, AddAll;
    var final := FinalTable(lines, secret, decode, expected);
    AddAllSummable(EMPTY, expected);
    AcceptedSummable(lines, secret, decode, expected);
    AddAllSummable(AddAll(EMPTY, expected), Accepted(lines, secret, decode, expected));
    FinalTableConsistent(lines, secret, decode, expected);
    SliceAt(final.names, final.scores);
  }
}
