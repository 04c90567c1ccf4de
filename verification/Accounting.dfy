/** Counting pages: RSS, USS and the union, for a family of page sets. */
module Accounting {
  import opened Sequences

  function Union<K(==), P(==)>(family: map<K, set<P>>): set<P> {
    set k, x | k in family && x in family[k] :: x
  }

  /** The sizes of these members of the family, added up. */
  function SumSizes<K(==), P(==)>(family: map<K, set<P>>, order: seq<K>): nat
    requires forall k <- order :: k in family
  {
    if order == [] then 0 else SumSizes(family, order[..|order| - 1]) + |family[order[|order| - 1]]|
  }

  ghost predicate PairwiseDisjoint<K, P>(family: map<K, set<P>>) {
    forall j, k | j in family && k in family && j != k :: family[j] !! family[k]
  }

  /** What member `k` has and no other member has. */
  function Exclusive<K(==), P(==)>(family: map<K, set<P>>, k: K): set<P>
    requires k in family
  {
    set x | x in family[k] && forall j <- family.Keys :: j != k ==> x !in family[j]
  }

  function Exclusives<K(==), P(==)>(family: map<K, set<P>>): map<K, set<P>> {
    map k | k in family :: Exclusive(family, k)
  }

  ghost predicate InOneOnly<K, P>(family: map<K, set<P>>, x: P) {
    forall j, k | j in family && k in family && x in family[j] && x in family[k] :: j == k
  }

  /** What exactly one member has. */
  ghost function ReferencedOnce<K, P>(family: map<K, set<P>>): set<P> {
    set x | x in Union(family) && InOneOnly(family, x)
  }

  // ----- sizes of unions

  lemma {:induction false} UnionSizes<P>(a: set<P>, b: set<P>)
    ensures |a + b| == |a| + |b| - |a * b|
  {
    assert a + b == a + (b - a) && b == (b - a) + a * b;
  }

  lemma {:induction false} SumPush<K, P>(family: map<K, set<P>>, order: seq<K>, k: K)
    requires k in family && forall j <- order :: j in family
    ensures SumSizes(family, order + [k]) == SumSizes(family, order) + |family[k]|
  {
    assert (order + [k])[..|order|] == order;
  }

  lemma {:induction false} SumSame<K, P>(a: map<K, set<P>>, b: map<K, set<P>>, order: seq<K>)
    requires forall k <- order :: k in a && k in b && |a[k]| == |b[k]|
    ensures SumSizes(a, order) == SumSizes(b, order)
  {
    if order != [] {
      SumSame(a, b, order[..|order| - 1]);
    }
  }

  lemma {:induction false} RemoveUnion<K, P>(family: map<K, set<P>>, k: K)
    requires k in family
    ensures Union(family) == Union(family - {k}) + family[k]
  {
    var rest := family - {k};
    forall x | x in Union(family) ensures x in Union(rest) + family[k] {
      var j :| j in family && x in family[j];
      assert j != k ==> j in rest && x in rest[j];
    }
  }

  lemma {:induction false} RemoveDisjoint<K, P>(family: map<K, set<P>>, k: K)
    requires k in family
    ensures PairwiseDisjoint(family) <==> PairwiseDisjoint(family - {k}) && |Union(family - {k}) * family[k]| == 0
  {
    var rest := family - {k};
    if PairwiseDisjoint(family) {
      forall i, j | i in rest && j in rest && i != j ensures rest[i] !! rest[j] {
        assert family[i] !! family[j];
      }
      forall x | x in Union(rest) ensures x !in family[k] {
        var j :| j in rest && x in rest[j];
        assert family[j] !! family[k];
      }
      assert Union(rest) * family[k] == {};
    }
    if PairwiseDisjoint(rest) && |Union(rest) * family[k]| == 0 {
      forall j | j in rest ensures family[j] !! family[k] {
        forall x | x in family[j] ensures x !in family[k] {
          assert x in rest[j];
          assert x in Union(rest) && x !in Union(rest) * family[k];
        }
      }
      forall i, j | i in family && j in family && i != j ensures family[i] !! family[j] {
        assert i != k && j != k ==> rest[i] !! rest[j];
      }
    }
  }

  /** A union is at most the sum of its parts, and equal exactly when they do not overlap. */
  lemma {:induction false} UnionAtMostSum<K, P>(family: map<K, set<P>>, order: seq<K>)
    requires IsOrdering(order, family.Keys) && forall k <- order :: k in family
    ensures |Union(family)| <= SumSizes(family, order)
    ensures |Union(family)| == SumSizes(family, order) <==> PairwiseDisjoint(family)
    decreases |order|
  {
    if order == [] {
      assert family.Keys == {};
      assert Union(family) == {};
    } else {
      var front, k := order[..|order| - 1], order[|order| - 1];
      var rest := family - {k};
      OrderingFront(order, family.Keys);
      assert rest.Keys == family.Keys - {k};
      UnionAtMostSum(rest, front);
      SumSame(family, rest, front);
      RemoveUnion(family, k);
      RemoveDisjoint(family, k);
      UnionSizes(Union(rest), family[k]);
    }
  }

  // ----- unique set sizes

  lemma {:induction false} ExclusivesDisjoint<K, P>(family: map<K, set<P>>)
    ensures PairwiseDisjoint(Exclusives(family)) && Union(Exclusives(family)) == ReferencedOnce(family)
  {
    var es := Exclusives(family);
    forall x | x in Union(es) ensures x in ReferencedOnce(family) {
      var k :| k in es && x in es[k];
      assert x in family[k];
    }
    forall x | x in ReferencedOnce(family) ensures x in Union(es) {
      var k :| k in family && x in family[k];
      assert x in es[k];
    }
  }

  lemma {:induction false} DisjointIffOnce<K, P>(family: map<K, set<P>>)
    ensures PairwiseDisjoint(family) <==> ReferencedOnce(family) == Union(family)
  {
    if !PairwiseDisjoint(family) {
      var j, k :| j in family && k in family && j != k && !(family[j] !! family[k]);
      var x :| x in family[j] && x in family[k];
      assert x in Union(family) && !InOneOnly(family, x);
    }
  }

  /** USS sizes add up to what exactly one member has; USS <= union <= RSS. */
  lemma {:induction false} UssIdentity<K, P>(family: map<K, set<P>>, order: seq<K>)
    requires IsOrdering(order, family.Keys) && forall k <- order :: k in family
    ensures SumSizes(Exclusives(family), order) == |ReferencedOnce(family)|
    ensures SumSizes(Exclusives(family), order) <= |Union(family)| <= SumSizes(family, order)
    ensures SumSizes(Exclusives(family), order) == |Union(family)| <==> PairwiseDisjoint(family)
    ensures |Union(family)| == SumSizes(family, order) <==> PairwiseDisjoint(family)
  {
    assert Exclusives(family).Keys == family.Keys;
    ExclusivesDisjoint(family);
    UnionAtMostSum(Exclusives(family), order);
    UnionAtMostSum(family, order);
    DisjointIffOnce(family);
    SubsetSize(ReferencedOnce(family), Union(family));
  }

  // ----- merging members

  /** The members that go to block `b`. */
  function Part<K(==), B(==), P>(family: map<K, set<P>>, h: K -> B, b: B): map<K, set<P>> {
    map k | k in family && h(k) == b :: family[k]
  }

  /** One member for each block: the union of those that go to it. */
  function Merged<K(==), B(==), P(==)>(family: map<K, set<P>>, h: K -> B): map<B, set<P>> {
    map b | b in (set k | k in family :: h(k)) :: Union(Part(family, h, b))
  }

  /** Merging keeps the union. */
  lemma {:induction false} MergeKeepsUnion<K, B, P>(family: map<K, set<P>>, h: K -> B)
    ensures Union(Merged(family, h)) == Union(family)
  {
    forall x | x in Union(family) ensures x in Union(Merged(family, h)) {
      var k :| k in family && x in family[k];
      assert x in Part(family, h, h(k))[k];
      assert h(k) in Merged(family, h) && x in Merged(family, h)[h(k)];
    }
    forall x | x in Union(Merged(family, h)) ensures x in Union(family) {
      var b :| b in Merged(family, h) && x in Merged(family, h)[b];
      var k :| k in Part(family, h, b) && x in Part(family, h, b)[k];
    }
  }

  lemma {:induction false} MergedExclusive<K, B, P>(family: map<K, set<P>>, h: K -> B, b: B)
    requires b in Merged(family, h)
    ensures Union(Part(Exclusives(family), h, b)) <= Exclusive(Merged(family, h), b)
  {
    var part := Part(Exclusives(family), h, b);
    forall x | x in Union(part) ensures x in Exclusive(Merged(family, h), b) {
      var k :| k in part && x in part[k];
      assert x in Part(family, h, b)[k];
      forall c | c in Merged(family, h) && c != b ensures x !in Merged(family, h)[c] {
        forall j | j in Part(family, h, c) ensures x !in Part(family, h, c)[j] {}
      }
    }
  }

  /** A merged member has at least the USS, and at most the RSS, of its parts together. */
  lemma {:induction false} MergeBounds<K, B, P>(family: map<K, set<P>>, h: K -> B, b: B, order: seq<K>)
    requires b in Merged(family, h)
    requires IsOrdering(order, Part(family, h, b).Keys) && forall k <- order :: k in Part(family, h, b)
    ensures forall k <- order :: k in family && k in Exclusives(family)
    ensures SumSizes(Exclusives(family), order) <= |Exclusive(Merged(family, h), b)|
    ensures |Merged(family, h)[b]| <= SumSizes(family, order)
  {
    var part := Part(Exclusives(family), h, b);
    assert part.Keys == Part(family, h, b).Keys;
    UnionAtMostSum(Part(family, h, b), order);
    SumSame(family, Part(family, h, b), order);
    ExclusivesDisjoint(family);
    UnionAtMostSum(part, order);
    SumSame(Exclusives(family), part, order);
    MergedExclusive(family, h, b);
    SubsetSize(Union(part), Exclusive(Merged(family, h), b));
  }
}
