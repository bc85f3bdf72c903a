/** Filtering sequences, sequences without repetitions, and the size of sets. */
module Sequences {

  function Filter<T>(keep: T -> bool, items: seq<T>): seq<T> {
    if |items| == 0 then []
    else (if keep(items[0]) then [items[0]] else []) + Filter(keep, items[1..])
  }

  lemma {:induction false} FilterMembers<T>(keep: T -> bool, items: seq<T>)
    ensures forall x :: x in Filter(keep, items) <==> x in items && keep(x)
  {
    if |items| > 0 {
      FilterMembers(keep, items[1..]);
    }
  }

  lemma {:induction false} FilterConcat<T>(keep: T -> bool, a: seq<T>, b: seq<T>)
    ensures Filter(keep, a + b) == Filter(keep, a) + Filter(keep, b)
  {
    if |a| == 0 {
      assert a + b == b;
    } else {
      FilterConcat(keep, a[1..], b);
      assert (a + b)[0] == a[0] && (a + b)[1..] == a[1..] + b;
      var head := if keep(a[0]) then [a[0]] else [];
      assert Filter(keep, a) == head + Filter(keep, a[1..]);
    }
  }

  lemma {:induction false} FilterAll<T>(keep: T -> bool, items: seq<T>)
    requires forall x :: x in items ==> keep(x)
    ensures Filter(keep, items) == items
  {
    if |items| > 0 {
      FilterAll(keep, items[1..]);
    }
  }

  /** The step of a loop that filters a sequence from left to right. */
  lemma FilterSnoc<T>(keep: T -> bool, items: seq<T>, i: nat)
    requires i < |items|
    ensures Filter(keep, items[..i + 1]) == Filter(keep, items[..i]) + if keep(items[i]) then [items[i]] else []
  {
    assert items[..i + 1] == items[..i] + [items[i]];
    FilterConcat(keep, items[..i], [items[i]]);
  }

  /** Keeps everything but `x`. */
  function Except<T(==)>(x: T): T -> bool { y => y != x }

  predicate NoRepeats<T(==)>(items: seq<T>) {
    forall i, j :: 0 <= i < j < |items| ==> items[i] != items[j]
  }

  lemma {:induction false} FilterKeepsNoRepeats<T>(keep: T -> bool, items: seq<T>)
    requires NoRepeats(items)
    ensures NoRepeats(Filter(keep, items))
  {
    if |items| > 0 {
      FilterKeepsNoRepeats(keep, items[1..]);
      FilterMembers(keep, items[1..]);
    }
  }

  lemma FirstIsMember<T>(items: seq<T>)
    ensures items == [] || items[0] in items
  {
  }

  lemma {:induction false} SubsetSize<T>(a: set<T>, b: set<T>)
    requires a <= b
    ensures |a| <= |b|
  {
    if a != {} {
      var x :| x in a;
      SubsetSize(a - {x}, b - {x});
    }
  }
}
