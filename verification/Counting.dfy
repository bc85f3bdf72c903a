/** Counting the threads of a protocol that are at certain program points. */
module Counting {
  import opened Sequences

  function Count<T>(p: T -> bool, xs: seq<T>): nat {
    if |xs| == 0 then 0 else Count(p, xs[..|xs| - 1]) + if p(xs[|xs| - 1]) then 1 else 0
  }

  lemma {:induction false} CountUpdate<T>(p: T -> bool, xs: seq<T>, i: nat, x: T)
    requires i < |xs|
    ensures Count(p, xs[i := x]) + (if p(xs[i]) then 1 else 0) == Count(p, xs) + if p(x) then 1 else 0
  {
    var front := xs[..|xs| - 1];
    if i < |front| {
      CountUpdate(p, front, i, x);
      assert xs[i := x][..|xs| - 1] == front[i := x];
    } else {
      assert xs[i := x][..|xs| - 1] == front;
    }
  }

  lemma CountSnoc<T>(p: T -> bool, xs: seq<T>, x: T)
    ensures Count(p, xs + [x]) == Count(p, xs) + if p(x) then 1 else 0
  {
    assert (xs + [x])[..|xs|] == xs;
  }

  lemma {:induction false} CountZero<T>(p: T -> bool, xs: seq<T>)
    ensures Count(p, xs) == 0 <==> forall i :: 0 <= i < |xs| ==> !p(xs[i])
  {
    if |xs| > 0 {
      CountZero(p, xs[..|xs| - 1]);
      assert forall i :: 0 <= i < |xs| - 1 ==> xs[..|xs| - 1][i] == xs[i];
    }
  }

  lemma {:induction false} CountBound<T>(p: T -> bool, xs: seq<T>)
    ensures Count(p, xs) <= |xs|
    ensures (forall i :: 0 <= i < |xs| ==> p(xs[i])) ==> Count(p, xs) == |xs|
  {
    if |xs| > 0 {
      CountBound(p, xs[..|xs| - 1]);
    }
  }

  /** The threads whose state satisfies `p`. */
  function At<T>(p: T -> bool, xs: seq<T>): set<nat> {
    set t: nat | t < |xs| && p(xs[t])
  }

  /** Counting threads is measuring the set of them. */
  lemma {:induction false} CountIsCardinality<T>(p: T -> bool, xs: seq<T>)
    ensures Count(p, xs) == |At(p, xs)|
  {
    if |xs| > 0 {
      var front := xs[..|xs| - 1];
      CountIsCardinality(p, front);
      assert At(p, xs) == At(p, front) + if p(xs[|xs| - 1]) then {|xs| - 1} else {};
    }
  }

  /** A weaker condition holds of at least as many threads. */
  lemma AtMonotone<T>(p: T -> bool, q: T -> bool, xs: seq<T>)
    requires forall x :: x in xs && p(x) ==> q(x)
    ensures |At(p, xs)| <= Count(q, xs)
  {
    SubsetSize(At(p, xs), At(q, xs));
    CountIsCardinality(q, xs);
  }

  /** How far the threads have come, all together. */
  function Total<T>(rank: T -> nat, xs: seq<T>): nat {
    if |xs| == 0 then 0 else Total(rank, xs[..|xs| - 1]) + rank(xs[|xs| - 1])
  }

  lemma {:induction false} TotalUpdate<T>(rank: T -> nat, xs: seq<T>, i: nat, x: T)
    requires i < |xs|
    ensures Total(rank, xs[i := x]) + rank(xs[i]) == Total(rank, xs) + rank(x)
  {
    var front := xs[..|xs| - 1];
    if i < |front| {
      TotalUpdate(rank, front, i, x);
      assert xs[i := x][..|xs| - 1] == front[i := x];
    } else {
      assert xs[i := x][..|xs| - 1] == front;
    }
  }

  lemma TotalSnoc<T>(rank: T -> nat, xs: seq<T>, x: T)
    ensures Total(rank, xs + [x]) == Total(rank, xs) + rank(x)
  {
    assert (xs + [x])[..|xs|] == xs;
  }

  lemma {:induction false} TotalBound<T>(rank: T -> nat, xs: seq<T>, most: nat)
    requires forall x :: x in xs ==> rank(x) <= most
    ensures Total(rank, xs) <= |xs| * most
  {
    if |xs| > 0 {
      TotalBound(rank, xs[..|xs| - 1], most);
      assert |xs| * most == (|xs| - 1) * most + most;
    }
  }
}
