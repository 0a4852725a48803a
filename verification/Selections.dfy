/**
 Picking elements out of a sequence.
 */
module Selections {
  /** The elements that satisfy `p`, in order. */
  function Filter<A>(xs: seq<A>, p: A -> bool): seq<A> {
    if xs == [] then [] else (if p(xs[0]) then [xs[0]] else []) + Filter(xs[1..], p)
  }

  lemma {:induction false} InFilter<A>(xs: seq<A>, p: A -> bool, x: A)
    ensures x in Filter(xs, p) <==> x in xs && p(x)
  {
    if xs != [] {
      InFilter(xs[1..], p, x);
      assert xs == [xs[0]] + xs[1..];
    }
  }

  /** The elements of a list, each where it first occurs. */
  function Distinct<A(==)>(xs: seq<A>): seq<A> {
    if xs == [] then []
    else
      var front := Distinct(xs[..|xs| - 1]);
      if xs[|xs| - 1] in front then front else front + [xs[|xs| - 1]]
  }

  /** `i` is where `x` first occurs. */
  predicate FirstAt<A(==)>(xs: seq<A>, x: A, i: int) {
    0 <= i < |xs| && xs[i] == x && x !in xs[..i]
  }

  /** `x` first occurs before `y` does. */
  ghost predicate Precedes<A>(xs: seq<A>, x: A, y: A) {
    exists m, n :: m < n && FirstAt(xs, x, m) && FirstAt(xs, y, n)
  }

  lemma {:induction false} InDistinct<A>(xs: seq<A>, x: A)
    ensures x in Distinct(xs) <==> x in xs
    decreases |xs|
  {
    if xs != [] {
      InDistinct(xs[..|xs| - 1], x);
      assert xs == xs[..|xs| - 1] + [xs[|xs| - 1]];
    }
  }

  /** `Distinct` keeps an element once, in the order of first occurrence. */
  lemma {:induction false} DistinctIs<A>(xs: seq<A>)
    ensures forall i, j :: 0 <= i < j < |Distinct(xs)| ==>
              Distinct(xs)[i] != Distinct(xs)[j] && Precedes(xs, Distinct(xs)[i], Distinct(xs)[j])
    decreases |xs|
  {
    if xs != [] {
      var front, last := xs[..|xs| - 1], xs[|xs| - 1];
      assert xs == front + [last];
      DistinctIs(front);
      var d, before := Distinct(xs), Distinct(front);
      forall i, j | 0 <= i < j < |d| ensures d[i] != d[j] && Precedes(xs, d[i], d[j]) {
        assert d[i] == before[i] && d[i] in before;
        if j < |before| {
          assert Precedes(front, before[i], before[j]);
          PrecedesStill(front, last, d[i], d[j]);
        } else {
          InDistinct(front, before[i]);
          InDistinct(front, last);
          var m := FirstOccurrence(front, d[i]);
          assert xs[..m] == front[..m] && xs[..|front|] == front;
          assert FirstAt(xs, d[i], m) && FirstAt(xs, last, |front|);
        }
      }
    }
  }

  lemma PrecedesStill<A>(xs: seq<A>, last: A, x: A, y: A)
    requires Precedes(xs, x, y)
    ensures Precedes(xs + [last], x, y)
  {
    var m, n :| m < n && FirstAt(xs, x, m) && FirstAt(xs, y, n);
    var longer := xs + [last];
    assert longer[..m] == xs[..m] && longer[..n] == xs[..n];
    assert FirstAt(longer, x, m) && FirstAt(longer, y, n);
  }

  lemma {:induction false} FirstOccurrence<A>(xs: seq<A>, x: A) returns (i: nat)
    requires x in xs
    ensures FirstAt(xs, x, i)
  {
    if xs[0] == x {
      i := 0;
    } else {
      assert xs == [xs[0]] + xs[1..];
      var j := FirstOccurrence(xs[1..], x);
      i := j + 1;
      assert xs[..i] == [xs[0]] + xs[1..][..j];
    }
  }
}
