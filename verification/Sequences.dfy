/** Keeping the elements of a sequence that pass a test, and concatenating by key. */
module Sequences {

  function Select<T>(s: seq<T>, keep: T -> bool): seq<T> {
    if s == [] then []
    else Select(s[..|s| - 1], keep) + (if keep(s[|s| - 1]) then [s[|s| - 1]] else [])
  }

  lemma {:induction false} SelectNext<T>(s: seq<T>, i: nat, keep: T -> bool)
    requires i < |s|
    ensures Select(s[..i + 1], keep) == Select(s[..i], keep) + if keep(s[i]) then [s[i]] else []
  {
    assert s[..i + 1][..i] == s[..i];
  }

  lemma {:induction false} SelectPush<T>(s: seq<T>, x: T, keep: T -> bool)
    ensures Select(s + [x], keep) == Select(s, keep) + if keep(x) then [x] else []
  {
    assert (s + [x])[..|s|] == s;
  }

  lemma {:induction false} SelectMember<T>(s: seq<T>, keep: T -> bool, x: T)
    ensures x in Select(s, keep) <==> x in s && keep(x)
  {
    if s != [] {
      SelectMember(s[..|s| - 1], keep, x);
      assert s == s[..|s| - 1] + [s[|s| - 1]];
    }
  }

  lemma {:induction false} SelectSame<T>(s: seq<T>, p: T -> bool, q: T -> bool)
    requires forall x <- s :: p(x) == q(x)
    ensures Select(s, p) == Select(s, q)
  {
    if s != [] {
      SelectSame(s[..|s| - 1], p, q);
    }
  }

  lemma {:induction false} SelectTwice<T>(s: seq<T>, p: T -> bool, q: T -> bool, both: T -> bool)
    requires forall x <- s :: both(x) == (p(x) && q(x))
    ensures Select(Select(s, p), q) == Select(s, both)
  {
    if s != [] {
      var front, last := s[..|s| - 1], s[|s| - 1];
      SelectTwice(front, p, q, both);
      var inner := Select(front, p);
      if p(last) {
        assert Select(s, p) == inner + [last];
        SelectPush(inner, last, q);
      } else {
        assert Select(s, p) == inner;
      }
    }
  }

  lemma {:induction false} SelectMultiset<T>(s: seq<T>, keep: T -> bool, x: T)
    ensures multiset(Select(s, keep))[x] == if keep(x) then multiset(s)[x] else 0
  {
    if s != [] {
      SelectMultiset(s[..|s| - 1], keep, x);
      assert s == s[..|s| - 1] + [s[|s| - 1]];
    }
  }

  lemma {:induction false} SelectPermuted<T(!new)>(s: seq<T>, t: seq<T>, keep: T -> bool)
    requires multiset(s) == multiset(t)
    ensures multiset(Select(s, keep)) == multiset(Select(t, keep))
  {
    var a, b := multiset(Select(s, keep)), multiset(Select(t, keep));
    forall x: T ensures a[x] == b[x] {
      SelectMultiset(s, keep, x);
      SelectMultiset(t, keep, x);
    }
    assert a == b;
  }

  /** Selecting loses nothing exactly when every element passes. */
  lemma {:induction false} SelectAllIff<T>(s: seq<T>, keep: T -> bool)
    ensures multiset(Select(s, keep)) == multiset(s) <==> forall x <- s :: keep(x)
  {
    forall x <- s ensures multiset(Select(s, keep))[x] == multiset(s)[x] <==> keep(x) {
      assert x in multiset(s);
      SelectMultiset(s, keep, x);
    }
    if forall x <- s :: keep(x) {
      SelectSame(s, keep, x => true);
      SelectEverything(s);
    }
  }

  lemma {:induction false} SelectEverything<T>(s: seq<T>)
    ensures Select(s, x => true) == s
  {
    if s != [] {
      SelectEverything(s[..|s| - 1]);
    }
  }

  /** The positions of the elements that pass, in order. */
  function PositionsOf<T>(s: seq<T>, keep: T -> bool): (at: seq<nat>)
    ensures forall i | 0 <= i < |at| :: at[i] < |s|
  {
    if s == [] then []
    else PositionsOf(s[..|s| - 1], keep) + (if keep(s[|s| - 1]) then [|s| - 1] else [])
  }

  ghost predicate Ascends(at: seq<nat>) {
    forall i, j | 0 <= i < j < |at| :: at[i] < at[j]
  }

  lemma {:induction false} PositionsAscend<T>(s: seq<T>, keep: T -> bool)
    ensures Ascends(PositionsOf(s, keep))
  {
    if s != [] {
      var front := PositionsOf(s[..|s| - 1], keep);
      PositionsAscend(s[..|s| - 1], keep);
      assert forall i | 0 <= i < |front| :: front[i] < |s| - 1;
      assert Ascends(front + [|s| - 1]);
    }
  }

  lemma {:induction false} PositionsComplete<T>(s: seq<T>, keep: T -> bool, k: nat)
    requires k < |s|
    ensures k in PositionsOf(s, keep) <==> keep(s[k])
    decreases |s|
  {
    if k < |s| - 1 {
      PositionsComplete(s[..|s| - 1], keep, k);
    }
  }

  /** The selected elements are those at these positions, in this order. */
  lemma {:induction false} SelectedAt<T>(s: seq<T>, keep: T -> bool)
    ensures |Select(s, keep)| == |PositionsOf(s, keep)|
    ensures forall i | 0 <= i < |Select(s, keep)| :: Select(s, keep)[i] == s[PositionsOf(s, keep)[i]]
  {
    if s != [] {
      SelectedAt(s[..|s| - 1], keep);
    }
  }

  /** These and no other elements are selected, in their order. */
  lemma {:induction false} SelectPositions<T>(s: seq<T>, keep: T -> bool) returns (at: seq<nat>)
    ensures |at| == |Select(s, keep)|
    ensures forall i | 0 <= i < |at| :: at[i] < |s| && Select(s, keep)[i] == s[at[i]]
    ensures forall i, j | 0 <= i < j < |at| :: at[i] < at[j]
    ensures forall k: nat | k < |s| :: k in at <==> keep(s[k])
  {
    at := PositionsOf(s, keep);
    SelectedAt(s, keep);
    PositionsAscend(s, keep);
    forall k: nat | k < |s| ensures k in at <==> keep(s[k]) {
      PositionsComplete(s, keep, k);
    }
  }

  function Positions<T>(s: seq<T>, keep: T -> bool): set<nat> {
    set i: nat | i < |s| && keep(s[i])
  }

  /** As many elements are selected as there are positions that pass. */
  lemma {:induction false} SelectCount<T>(s: seq<T>, keep: T -> bool)
    ensures |Select(s, keep)| == |Positions(s, keep)|
  {
    if s == [] {
      assert Positions(s, keep) == {};
    } else {
      var last := |s| - 1;
      SelectCount(s[..last], keep);
      assert Positions(s, keep) == Positions(s[..last], keep) + if keep(s[last]) then {last} else {};
    }
  }

  // ----- listing a finite set

  ghost predicate Distinct<T>(s: seq<T>) {
    forall i, j | 0 <= i < j < |s| :: s[i] != s[j]
  }

  /** `order` lists every member of `keys` once. */
  ghost predicate IsOrdering<K>(order: seq<K>, keys: set<K>) {
    Distinct(order) && (set k | k in order) == keys
  }

  lemma {:induction false} OrderingPush<K>(order: seq<K>, keys: set<K>, k: K)
    requires IsOrdering(order, keys) && k !in keys
    ensures IsOrdering(order + [k], keys + {k})
  {
    assert forall i | 0 <= i < |order| :: order[i] in keys;
  }

  lemma {:induction false} OrderingFront<K>(order: seq<K>, keys: set<K>)
    requires IsOrdering(order, keys) && order != []
    ensures IsOrdering(order[..|order| - 1], keys - {order[|order| - 1]})
  {
    var front, k := order[..|order| - 1], order[|order| - 1];
    assert order == front + [k];
    assert forall j <- front :: j in keys;
  }

  lemma {:induction false} SelectDistinct<T>(s: seq<T>, keep: T -> bool)
    requires Distinct(s)
    ensures Distinct(Select(s, keep))
  {
    if s != [] {
      var last := |s| - 1;
      SelectDistinct(s[..last], keep);
      var front := Select(s[..last], keep);
      forall i | 0 <= i < |front| ensures front[i] != s[last] {
        SelectMember(s[..last], keep, front[i]);
      }
    }
  }

  lemma {:induction false} DistinctCount<T>(s: seq<T>, x: T)
    requires Distinct(s)
    ensures multiset(s)[x] == if x in s then 1 else 0
  {
    if s != [] {
      var last := |s| - 1;
      DistinctCount(s[..last], x);
      assert s == s[..last] + [s[last]];
    }
  }

  /** Two orderings of a set are permutations of each other. */
  lemma {:induction false} OrderingsAgree<K>(a: seq<K>, b: seq<K>, keys: set<K>)
    requires IsOrdering(a, keys) && IsOrdering(b, keys)
    ensures multiset(a) == multiset(b)
  {
    forall k | k in multiset(a) + multiset(b) ensures multiset(a)[k] == multiset(b)[k] {
      DistinctCount(a, k);
      DistinctCount(b, k);
      assert k in a <==> k in keys;
      assert k in b <==> k in keys;
    }
  }

  lemma {:induction false} SubsetSize<T>(a: set<T>, b: set<T>)
    requires a <= b
    ensures |a| <= |b| && (a != b ==> |a| < |b|)
  {
    assert b == a + (b - a);
  }

  // ----- listing a map

  function Without<T>(s: seq<T>, i: nat): seq<T>
    requires i < |s|
  {
    s[..i] + s[i + 1..]
  }

  lemma {:induction false} MultisetWithout<T>(s: seq<T>, i: nat)
    requires i < |s|
    ensures multiset(Without(s, i)) == multiset(s) - multiset{s[i]}
  {
    assert s == s[..i] + ([s[i]] + s[i + 1..]);
  }

  /** The values of these keys, in this order. */
  function Listed<K(==), R>(m: map<K, R>, order: seq<K>): (r: seq<R>)
    requires forall k <- order :: k in m
    ensures |r| == |order|
  {
    if order == [] then [] else Listed(m, order[..|order| - 1]) + [m[order[|order| - 1]]]
  }

  lemma {:induction false} ListedIs<K, R>(m: map<K, R>, order: seq<K>, rows: seq<R>)
    requires |rows| == |order| && forall i | 0 <= i < |order| :: order[i] in m && rows[i] == m[order[i]]
    ensures (forall k <- order :: k in m) && rows == Listed(m, order)
  {
    if order != [] {
      ListedIs(m, order[..|order| - 1], rows[..|rows| - 1]);
      assert rows == rows[..|rows| - 1] + [rows[|rows| - 1]];
    }
  }

  lemma {:induction false} ListedJoin<K, R>(m: map<K, R>, a: seq<K>, b: seq<K>)
    requires forall k <- a + b :: k in m
    ensures (forall k <- a :: k in m) && (forall k <- b :: k in m)
    ensures Listed(m, a + b) == Listed(m, a) + Listed(m, b)
  {
    assert (forall k <- a :: k in a + b) && (forall k <- b :: k in a + b);
    if b == [] {
      assert a + b == a;
    } else {
      var front := b[..|b| - 1];
      assert (a + b)[..|a + b| - 1] == a + front;
      ListedJoin(m, a, front);
    }
  }

  lemma {:induction false} ListedWithout<K, R>(m: map<K, R>, order: seq<K>, i: nat)
    requires i < |order| && forall k <- order :: k in m
    ensures forall k <- Without(order, i) :: k in m
    ensures multiset(Listed(m, order)) == multiset(Listed(m, Without(order, i))) + multiset{m[order[i]]}
  {
    var a, b := order[..i], order[i + 1..];
    assert order == a + [order[i]] + b;
    ListedJoin(m, a + [order[i]], b);
    ListedJoin(m, a, b);
    assert (a + [order[i]])[..|a|] == a;
  }

  lemma {:induction false} ListedPermuted<K, R>(m: map<K, R>, a: seq<K>, b: seq<K>)
    requires multiset(a) == multiset(b) && (forall k <- a :: k in m) && forall k <- b :: k in m
    ensures multiset(Listed(m, a)) == multiset(Listed(m, b))
    decreases |a|
  {
    if a == [] {
      assert |multiset(b)| == 0;
    } else {
      var last := |a| - 1;
      assert a[last] in multiset(b);
      var i :| 0 <= i < |b| && b[i] == a[last];
      MultisetWithout(a, last);
      MultisetWithout(b, i);
      ListedWithout(m, a, last);
      ListedWithout(m, b, i);
      ListedPermuted(m, Without(a, last), Without(b, i));
    }
  }
}
