/** List comprehensions with a condition, `[x for x in xs if p(x)]`. */
module Seqs {

  /** The elements of `xs` that satisfy `p`, in their original order. */
  function Filter<T(!new)>(xs: seq<T>, p: T -> bool): (r: seq<T>)
    ensures |r| <= |xs|
    ensures forall x :: x in r <==> x in xs && p(x)
  {
    if |xs| == 0 then []
    else if p(xs[0]) then [xs[0]] + Filter(xs[1..], p)
    else Filter(xs[1..], p)
  }

  /** `r` is the sequence of the elements of `xs` at the positions `idx`. */
  ghost predicate Picks<T>(xs: seq<T>, r: seq<T>, idx: seq<nat>) {
    |idx| == |r| && forall k :: 0 <= k < |idx| ==> idx[k] < |xs| && xs[idx[k]] == r[k]
  }

  ghost predicate Increasing(idx: seq<nat>) {
    forall k, l :: 0 <= k < l < |idx| ==> idx[k] < idx[l]
  }

  /** Every position of `xs` whose element satisfies `p` is in `idx`. */
  ghost predicate Covers<T>(xs: seq<T>, p: T -> bool, idx: seq<nat>) {
    forall i :: 0 <= i < |xs| && p(xs[i]) ==> i in idx
  }

  /** `idx` lists, in increasing order, the positions of `xs` that `r` keeps:
      `r` is the in-order subsequence of `xs` at those positions, and every
      position whose element satisfies `p` is among them. */
  ghost predicate KeptAt<T>(xs: seq<T>, p: T -> bool, r: seq<T>, idx: seq<nat>) {
    Picks(xs, r, idx) && Increasing(idx) && Covers(xs, p, idx)
  }

  /** Every index one higher. */
  function Shifted(idx: seq<nat>): (r: seq<nat>)
    ensures |r| == |idx|
    ensures forall k :: 0 <= k < |idx| ==> r[k] == idx[k] + 1
  {
    seq(|idx|, k requires 0 <= k < |idx| => idx[k] + 1)
  }

  lemma ShiftedIncreasing(tail: seq<nat>)
    requires Increasing(tail)
    ensures Increasing(Shifted(tail)) && Increasing([0] + Shifted(tail))
  {
    var idx := [0] + Shifted(tail);
    forall k, l | 0 <= k < l < |idx| ensures idx[k] < idx[l] {
      assert idx[l] == tail[l - 1] + 1;
      if k > 0 {
        assert idx[k] == tail[k - 1] + 1;
      }
    }
  }

  lemma ShiftedPicks<T>(xs: seq<T>, rest: seq<T>, tail: seq<nat>)
    requires |xs| > 0 && Picks(xs[1..], rest, tail)
    ensures Picks(xs, rest, Shifted(tail)) && Picks(xs, [xs[0]] + rest, [0] + Shifted(tail))
  {
    var shifted := Shifted(tail);
    forall k | 0 <= k < |shifted| ensures shifted[k] < |xs| && xs[shifted[k]] == rest[k] {
      assert xs[1..][tail[k]] == rest[k];
    }
    var idx, r := [0] + shifted, [xs[0]] + rest;
    forall k | 0 <= k < |idx| ensures idx[k] < |xs| && xs[idx[k]] == r[k] {
      if k > 0 {
        assert idx[k] == shifted[k - 1] && r[k] == rest[k - 1];
      }
    }
  }

  lemma ShiftedCovers<T>(xs: seq<T>, p: T -> bool, tail: seq<nat>)
    requires |xs| > 0 && Covers(xs[1..], p, tail)
    ensures !p(xs[0]) ==> Covers(xs, p, Shifted(tail))
    ensures Covers(xs, p, [0] + Shifted(tail))
  {
    var shifted := Shifted(tail);
    forall i | 1 <= i < |xs| && p(xs[i]) ensures i in shifted {
      assert xs[1..][i - 1] == xs[i];
      var k :| 0 <= k < |tail| && tail[k] == i - 1;
      assert shifted[k] == i;
    }
    assert forall i :: 0 <= i < |xs| && p(xs[i]) ==> i in [0] + shifted;
  }

  /** The positions kept from `xs[1..]`, moved up by one, with position 0
      in front when `xs[0]` is kept, are the positions kept from `xs`. */
  lemma KeptAtCons<T(!new)>(xs: seq<T>, p: T -> bool, tail: seq<nat>)
    requires |xs| > 0 && KeptAt(xs[1..], p, Filter(xs[1..], p), tail)
    ensures KeptAt(xs, p, Filter(xs, p), if p(xs[0]) then [0] + Shifted(tail) else Shifted(tail))
  {
    ShiftedIncreasing(tail);
    ShiftedPicks(xs, Filter(xs[1..], p), tail);
    ShiftedCovers(xs, p, tail);
  }

  /** `Filter` keeps every element satisfying `p`, in its original order. */
  lemma {:induction false} FilterInOrder<T(!new)>(xs: seq<T>, p: T -> bool)
    ensures exists idx :: KeptAt(xs, p, Filter(xs, p), idx)
  {
    if |xs| == 0 {
      assert KeptAt(xs, p, Filter(xs, p), []);
    } else {
      FilterInOrder(xs[1..], p);
      var tail :| KeptAt(xs[1..], p, Filter(xs[1..], p), tail);
      KeptAtCons(xs, p, tail);
    }
  }

  /** Filtering a concatenation filters each part: the kept elements keep their order. */
  lemma {:induction false} FilterAppend<T(!new)>(xs: seq<T>, ys: seq<T>, p: T -> bool)
    ensures Filter(xs + ys, p) == Filter(xs, p) + Filter(ys, p)
  {
    if |xs| > 0 {
      assert (xs + ys)[1..] == xs[1..] + ys;
      FilterAppend(xs[1..], ys, p);
    } else {
      assert xs + ys == ys;
    }
  }

  /** Filtering one element more of `xs` appends that element when it is kept. */
  lemma FilterSnoc<T(!new)>(xs: seq<T>, i: nat, p: T -> bool)
    requires i < |xs|
    ensures Filter(xs[..i + 1], p) == Filter(xs[..i], p) + (if p(xs[i]) then [xs[i]] else [])
  {
    assert xs[..i + 1] == xs[..i] + [xs[i]];
    FilterAppend(xs[..i], [xs[i]], p);
    assert [xs[i]][1..] == [];
  }

  /** Filtering twice is filtering once by a condition that agrees with both
      conditions together on the elements of `xs`. */
  lemma {:induction false} FilterFilter<T(!new)>(xs: seq<T>, p: T -> bool, q: T -> bool, both: T -> bool)
    requires forall x :: x in xs ==> (p(x) && q(x) <==> both(x))
    ensures Filter(Filter(xs, p), q) == Filter(xs, both)
  {
    if |xs| > 0 {
      assert forall x :: x in xs[1..] ==> x in xs;
      FilterFilter(xs[1..], p, q, both);
    }
  }
}
