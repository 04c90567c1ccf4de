/** Increasing ranges of frame numbers, and the position of a frame among all of them. */
module Ranges {
  import opened Wrappers
  import opened Sequences

  /** The frames from `first` to `last`, both included. */
  datatype Range = Range(first: nat, last: nat)

  predicate InRange(r: Range, p: nat) {
    r.first <= p <= r.last
  }

  /** Non-empty ranges in increasing order, no two of them sharing a frame. */
  ghost predicate Increasing(rs: seq<Range>) {
    && (forall i | 0 <= i < |rs| :: rs[i].first <= rs[i].last)
    && forall i, j | 0 <= i < j < |rs| :: rs[i].last < rs[j].first
  }

  predicate IsBetween(a: nat, p: nat, b: int) {
    a <= p <= b
  }

  ghost function Frames(a: nat, b: int): set<nat> {
    set p: nat | p <= b && IsBetween(a, p, b)
  }

  /** The frames that belong to some range. */
  ghost function Covered(rs: seq<Range>): set<nat> {
    if rs == [] then {}
    else Covered(rs[..|rs| - 1]) + Frames(rs[|rs| - 1].first, rs[|rs| - 1].last)
  }

  ghost function Below(s: set<nat>, p: nat): set<nat> {
    set q | q in s && q < p
  }

  /** How many members of `s` are below `p`. */
  ghost function Rank(s: set<nat>, p: nat): nat {
    |Below(s, p)|
  }

  /** The number of frames of the first `i` ranges, as a loop adds them up. */
  function SizeBefore(rs: seq<Range>, i: nat): int
    requires i <= |rs|
  {
    if i == 0 then 0 else SizeBefore(rs, i - 1) + (rs[i - 1].last - rs[i - 1].first + 1)
  }

  // ----- counting frames

  lemma {:induction false} FramesSize(a: nat, b: int)
    requires a <= b + 1
    ensures |Frames(a, b)| == b + 1 - a
    decreases b + 1 - a
  {
    if a == b + 1 {
      assert Frames(a, b) == {};
    } else {
      FramesSize(a + 1, b);
      assert Frames(a, b) == {a} + Frames(a + 1, b);
    }
  }

  lemma {:induction false} CoveredIff(rs: seq<Range>, p: nat)
    ensures p in Covered(rs) <==> exists i | 0 <= i < |rs| :: InRange(rs[i], p)
  {
    if rs != [] {
      var front := rs[..|rs| - 1];
      CoveredIff(front, p);
      assert forall i | 0 <= i < |front| :: front[i] == rs[i];
      assert p in Frames(rs[|front|].first, rs[|front|].last) <==> InRange(rs[|front|], p);
    }
  }

  lemma {:induction false} BelowPrefix(rs: seq<Range>, i: nat)
    requires Increasing(rs) && i < |rs|
    ensures forall p <- Covered(rs[..i]) :: p < rs[i].first
  {
    forall p <- Covered(rs[..i]) ensures p < rs[i].first {
      CoveredIff(rs[..i], p);
    }
  }

  lemma {:induction false} DisjointSizes(a: set<nat>, b: set<nat>)
    requires a !! b
    ensures |a + b| == |a| + |b|
  {
  }

  /** One more range adds its frames, none of them seen before. */
  lemma {:induction false} CoveredNext(rs: seq<Range>, i: nat)
    requires Increasing(rs) && i < |rs|
    ensures Covered(rs[..i + 1]) == Covered(rs[..i]) + Frames(rs[i].first, rs[i].last)
    ensures Covered(rs[..i]) !! Frames(rs[i].first, rs[i].last)
  {
    assert rs[..i + 1][..i] == rs[..i];
    BelowPrefix(rs, i);
  }

  lemma {:induction false} SizeIsCount(rs: seq<Range>, i: nat)
    requires Increasing(rs) && i <= |rs|
    ensures SizeBefore(rs, i) == |Covered(rs[..i])|
  {
    if i > 0 {
      var last := rs[i - 1];
      SizeIsCount(rs, i - 1);
      CoveredNext(rs, i - 1);
      FramesSize(last.first, last.last);
      DisjointSizes(Covered(rs[..i - 1]), Frames(last.first, last.last));
    }
  }

  lemma {:induction false} WholeSize(rs: seq<Range>)
    requires Increasing(rs)
    ensures SizeBefore(rs, |rs|) == |Covered(rs)|
  {
    SizeIsCount(rs, |rs|);
    assert rs[..|rs|] == rs;
  }

  /** The frames before a range fit below its start. */
  lemma {:induction false} SizeBound(rs: seq<Range>, i: nat)
    requires Increasing(rs) && i < |rs|
    ensures 0 <= SizeBefore(rs, i) <= rs[i].first
  {
    if i > 0 {
      SizeBound(rs, i - 1);
    }
  }

  lemma {:induction false} SizeGrows(rs: seq<Range>, i: nat, j: nat)
    requires Increasing(rs) && i <= j <= |rs|
    ensures SizeBefore(rs, i) <= SizeBefore(rs, j)
  {
    if i < j {
      SizeGrows(rs, i, j - 1);
    }
  }

  lemma {:induction false} SumBound(rs: seq<Range>, i: nat, p: nat)
    requires Increasing(rs) && i < |rs| && p <= rs[i].last
    ensures SizeBefore(rs, i) + p <= SizeBefore(rs, |rs| - 1) + rs[|rs| - 1].last
  {
    SizeGrows(rs, i, |rs| - 1);
  }

  // ----- ranks

  lemma {:induction false} RankMonotone(s: set<nat>, p: nat, q: nat)
    requires p in s && p < q
    ensures Rank(s, p) < Rank(s, q) <= |s|
  {
    assert p in Below(s, q) && p !in Below(s, p);
    SubsetSize(Below(s, p), Below(s, q));
    SubsetSize(Below(s, q), s);
  }

  lemma {:induction false} RankInjective(s: set<nat>, p: nat, q: nat)
    requires p in s && q in s && Rank(s, p) == Rank(s, q)
    ensures p == q
  {
    if p < q {
      RankMonotone(s, p, q);
    } else if q < p {
      RankMonotone(s, q, p);
    }
  }

  lemma {:induction false} Greatest(s: set<nat>) returns (m: nat)
    requires s != {}
    ensures m in s && forall p <- s :: p <= m
    decreases |s|
  {
    var first: nat :| first in s;
    var others := s - {first};
    assert s == others + {first};
    if others == {} {
      m := first;
    } else {
      SubsetSize(others, s);
      m := Greatest(others);
      if m < first {
        m := first;
      }
    }
  }

  /** Every number below the size of a finite set is the rank of one of its members. */
  lemma {:induction false} RankOnto(s: set<nat>, k: nat)
    requires k < |s|
    ensures exists p :: p in s && Rank(s, p) == k
    decreases |s|
  {
    var m := Greatest(s);
    var others := s - {m};
    assert s == others + {m} && |s| == |others| + 1;
    assert forall q <- others :: q < m;
    if k == |others| {
      assert Below(s, m) == others;
      assert Rank(s, m) == k;
    } else {
      RankOnto(others, k);
      var p :| p in others && Rank(others, p) == k;
      assert Below(s, p) == Below(others, p);
      assert p in s && Rank(s, p) == k;
    }
  }

  /** The frame that has this many covered frames below it. */
  ghost function Nth(rs: seq<Range>, index: nat): (r: Option<nat>)
    ensures r.Some? <==> index < |Covered(rs)|
    ensures r.Some? ==> r.value in Covered(rs) && Rank(Covered(rs), r.value) == index
  {
    if index < |Covered(rs)| then
      RankOnto(Covered(rs), index);
      var p :| p in Covered(rs) && Rank(Covered(rs), p) == index;
      Some(p)
    else None
  }

  lemma {:induction false} NthIs(rs: seq<Range>, p: nat)
    requires p in Covered(rs)
    ensures Nth(rs, Rank(Covered(rs), p)) == Some(p)
  {
    var index := Rank(Covered(rs), p);
    RankMonotone(Covered(rs), p, p + 1);
    RankInjective(Covered(rs), p, Nth(rs, index).value);
  }

  // ----- the rank of a frame from the range it falls in

  /** Frames below a frame of range `i` are those of the ranges before it and the first ones of range `i`. */
  lemma {:induction false} BelowInRange(rs: seq<Range>, i: nat, p: nat, q: nat)
    requires Increasing(rs) && i < |rs| && InRange(rs[i], p)
    ensures q in Covered(rs) && q < p <==> q in Covered(rs[..i]) || rs[i].first <= q <= p - 1
  {
    CoveredIff(rs, q);
    CoveredIff(rs[..i], q);
    BelowPrefix(rs, i);
    if rs[i].first <= q <= p - 1 {
      assert InRange(rs[i], q);
    }
    if j :| 0 <= j < i && InRange(rs[..i][j], q) {
      assert InRange(rs[j], q);
    }
    if j :| 0 <= j < |rs| && InRange(rs[j], q) && q < p {
      if j < i {
        assert InRange(rs[..i][j], q);
      }
    }
  }

  /** Below a frame of range `i`: the ranges before it, and the frames of the range before this one. */
  lemma {:induction false} BelowSplits(rs: seq<Range>, i: nat, p: nat)
    requires Increasing(rs) && i < |rs| && InRange(rs[i], p)
    ensures Below(Covered(rs), p) == Covered(rs[..i]) + Frames(rs[i].first, p - 1)
  {
    forall q: nat
      ensures q in Below(Covered(rs), p) <==> q in Covered(rs[..i]) || q in Frames(rs[i].first, p - 1)
    {
      BelowInRange(rs, i, p, q);
      assert q in Frames(rs[i].first, p - 1) <==> rs[i].first <= q <= p - 1;
    }
  }

  lemma {:induction false} RankInRange(rs: seq<Range>, i: nat, p: nat)
    requires Increasing(rs) && i < |rs| && InRange(rs[i], p)
    ensures p in Covered(rs)
    ensures Rank(Covered(rs), p) == SizeBefore(rs, i) + p - rs[i].first
  {
    var before, here := Covered(rs[..i]), Frames(rs[i].first, p - 1);
    CoveredIff(rs, p);
    BelowSplits(rs, i, p);
    BelowPrefix(rs, i);
    SizeIsCount(rs, i);
    FramesSize(rs[i].first, p - 1);
    DisjointSizes(before, here);
  }

  /** A frame between two ranges, or outside all of them, is not covered. */
  lemma {:induction false} NotCovered(rs: seq<Range>, i: nat, p: nat)
    requires Increasing(rs) && i <= |rs|
    requires i > 0 ==> rs[i - 1].last < p
    requires i < |rs| ==> p < rs[i].first
    ensures p !in Covered(rs)
  {
    CoveredIff(rs, p);
    forall j | 0 <= j < |rs| ensures !InRange(rs[j], p) {
      if j < i - 1 {
        assert rs[j].last < rs[i - 1].first;
      } else if i < j {
        assert rs[i].last < rs[j].first;
      }
    }
  }
}
