/** Who started whom: descendants as a closure, ancestors as a walk. */
module Processes {
  import opened Wrappers
  import opened Decimal
  import opened Sequences

  /** What can be read of a process under /proc; each file may be unreadable on its own. */
  datatype Process = Process(
    pid: i32,
    ppid: Option<i32>,
    comm: Option<string>,
    uid: Option<u32>,
    environ: Option<map<string, string>>)

  /** (parent, child) */
  type Edge = (i32, i32)

  // ----- reachability

  ghost function LinksOf(edges: seq<Edge>): set<Edge> {
    set e | e in edges
  }

  ghost predicate IsPath(links: set<Edge>, p: seq<i32>) {
    forall i | 0 <= i < |p| - 1 :: (p[i], p[i + 1]) in links
  }

  ghost predicate Connects(links: set<Edge>, p: seq<i32>, x: i32, y: i32) {
    |p| > 0 && p[0] == x && p[|p| - 1] == y && IsPath(links, p)
  }

  /** There is a path of one edge or more from `x` to `y`. */
  ghost predicate Reaches(links: set<Edge>, x: i32, y: i32) {
    exists p :: |p| >= 2 && Connects(links, p, x, y)
  }

  lemma {:induction false} JoinPaths(links: set<Edge>, p: seq<i32>, q: seq<i32>, x: i32, y: i32, z: i32)
    requires Connects(links, p, x, y) && Connects(links, q, y, z)
    ensures Connects(links, p + q[1..], x, z)
  {
    var r := p + q[1..];
    forall i | 0 <= i < |r| - 1 ensures (r[i], r[i + 1]) in links {
      if i >= |p| - 1 {
        assert r[i] == q[i - |p| + 1] && r[i + 1] == q[i - |p| + 2];
      }
    }
  }

  lemma {:induction false} ReachOne(links: set<Edge>, x: i32, y: i32)
    requires (x, y) in links
    ensures Reaches(links, x, y)
  {
    assert Connects(links, [x, y], x, y);
  }

  lemma {:induction false} ReachTransitive(links: set<Edge>, x: i32, y: i32, z: i32)
    requires Reaches(links, x, y) && Reaches(links, y, z)
    ensures Reaches(links, x, z)
  {
    var p :| |p| >= 2 && Connects(links, p, x, y);
    var q :| |q| >= 2 && Connects(links, q, y, z);
    JoinPaths(links, p, q, x, y, z);
  }

  /** A set that holds the children of `x` and of its own members holds everything reachable. */
  lemma {:induction false} ClosedHoldsPath(links: set<Edge>, s: set<i32>, x: i32, p: seq<i32>)
    requires |p| >= 2 && p[0] == x && IsPath(links, p)
    requires forall e <- links :: e.0 == x || e.0 in s ==> e.1 in s
    ensures p[|p| - 1] in s
  {
    var q := p[..|p| - 1];
    assert (p[|p| - 2], p[|p| - 1]) in links;
    if |p| > 2 {
      assert IsPath(links, q) by {
        forall i | 0 <= i < |q| - 1 ensures (q[i], q[i + 1]) in links {
          assert (p[i], p[i + 1]) in links;
        }
      }
      ClosedHoldsPath(links, s, x, q);
    }
  }

  lemma {:induction false} ClosedHoldsReachable(links: set<Edge>, s: set<i32>, x: i32)
    requires forall e <- links :: e.0 == x || e.0 in s ==> e.1 in s
    ensures forall y :: Reaches(links, x, y) ==> y in s
  {
    forall y | Reaches(links, x, y) ensures y in s {
      var p :| |p| >= 2 && Connects(links, p, x, y);
      ClosedHoldsPath(links, s, x, p);
    }
  }

  // ----- the walk up to pid 1

  /** The parent named by the first edge that has `x` as its child. */
  function Parent(edges: seq<Edge>, x: i32): (r: Option<i32>)
    ensures r.Some? ==> (r.value, x) in edges
    ensures r.None? ==> forall e <- edges :: e.1 != x
  {
    if edges == [] then None
    else if edges[0].1 == x then Some(edges[0].0)
    else Parent(edges[1..], x)
  }

  /** Where the walk stands after `n` steps up from `x`; `None` once it has stopped. */
  function Walk(edges: seq<Edge>, x: i32, n: nat): Option<i32> {
    if n == 0 then Some(x)
    else
      match Walk(edges, x, n - 1)
      case None => None
      case Some(current) => if current == 1 then None else Parent(edges, current)
  }

  ghost predicate WalkEnds(edges: seq<Edge>, x: i32) {
    exists n: nat :: Walk(edges, x, n) == None
  }

  lemma {:induction false} WalkStaysEnded(edges: seq<Edge>, x: i32, m: nat, n: nat)
    requires m <= n && Walk(edges, x, m) == None
    ensures Walk(edges, x, n) == None
  {
    if m < n {
      WalkStaysEnded(edges, x, m, n - 1);
    }
  }

  /** `ys` are the processes met from step `first` on. */
  ghost predicate Follows(edges: seq<Edge>, x: i32, first: nat, ys: seq<i32>) {
    forall i | 0 <= i < |ys| :: Walk(edges, x, first + i) == Some(ys[i])
  }

  /** `ys` is all that was met before arriving at `current`, and the walk ends before `limit` steps. */
  ghost predicate Arrived(edges: seq<Edge>, x: i32, first: nat, ys: seq<i32>, current: i32, limit: nat) {
    && Follows(edges, x, first, ys)
    && 0 < first + |ys| <= limit
    && Walk(edges, x, first + |ys| - 1) == Some(current)
    && Walk(edges, x, limit) == None
  }

  lemma {:induction false} FirstParent(edges: seq<Edge>, x: i32, k: nat)
    requires k < |edges| && edges[k].1 == x && forall j | 0 <= j < k :: edges[j].1 != x
    ensures Parent(edges, x) == Some(edges[k].0)
  {
    if k > 0 {
      FirstParent(edges[1..], x, k - 1);
    }
  }

  lemma {:induction false} ArriveAtParent(
    edges: seq<Edge>, x: i32, first: nat, ys: seq<i32>, current: i32, limit: nat, k: nat)
    requires Arrived(edges, x, first, ys, current, limit) && current != 1
    requires k < |edges| && edges[k].1 == current && forall j | 0 <= j < k :: edges[j].1 != current
    ensures Arrived(edges, x, first, ys + [edges[k].0], edges[k].0, limit)
  {
    FirstParent(edges, current, k);
    assert Walk(edges, x, first + |ys|) == Some(edges[k].0);
  }

  /** The parent is the one of the first edge that has `x` as its child. */
  lemma {:induction false} ParentIffFirst(edges: seq<Edge>, x: i32, y: i32)
    ensures Parent(edges, x) == Some(y)
       <==> exists k: nat :: k < |edges| && edges[k] == (y, x) && forall j | 0 <= j < k :: edges[j].1 != x
  {
    if Parent(edges, x) == Some(y) {
      var k := FirstEdge(edges, x);
      FirstParent(edges, x, k);
    }
    if k: nat :| k < |edges| && edges[k] == (y, x) && forall j | 0 <= j < k :: edges[j].1 != x {
      FirstParent(edges, x, k);
    }
  }

  lemma {:induction false} FirstEdge(edges: seq<Edge>, x: i32) returns (k: nat)
    requires Parent(edges, x).Some?
    ensures k < |edges| && edges[k].1 == x && forall j | 0 <= j < k :: edges[j].1 != x
  {
    if edges[0].1 == x {
      k := 0;
    } else {
      k := FirstEdge(edges[1..], x);
      k := k + 1;
    }
  }

  /** `y` is the parent of `x` according to the first edge that tells one. */
  ghost predicate IsParent(edges: seq<Edge>, y: i32, x: i32) {
    exists k: nat :: k < |edges| && edges[k] == (y, x) && forall j | 0 <= j < k :: edges[j].1 != x
  }

  /** What `ancestors(x, false)` is: the chain of parents from `x` up, ended by pid 1 or by a process without one. */
  lemma {:induction false} AncestorsChain(edges: seq<Edge>, x: i32, ys: seq<i32>)
    requires Follows(edges, x, 1, ys) && Walk(edges, x, 1 + |ys|) == None
    ensures var line := [x] + ys;
            && (forall i | 0 <= i < |ys| :: line[i] != 1 && IsParent(edges, line[i + 1], line[i]))
            && (line[|ys|] == 1 || forall e <- edges :: e.1 != line[|ys|])
  {
    var line := [x] + ys;
    forall i | 0 <= i <= |ys| ensures Walk(edges, x, i) == Some(line[i]) {
      if i > 0 {
        assert Walk(edges, x, 1 + (i - 1)) == Some(ys[i - 1]);
      }
    }
    forall i | 0 <= i < |ys| ensures line[i] != 1 && IsParent(edges, line[i + 1], line[i]) {
      assert Walk(edges, x, i + 1) == Some(line[i + 1]);
      ParentIffFirst(edges, line[i], line[i + 1]);
    }
  }

  class ProcessTree {
    var edges: seq<Edge>

    ghost function Links(): set<Edge>
      reads this
    {
      LinksOf(edges)
    }

    /** One edge for each process whose status can be read, in the order of the processes. */
    constructor (processes: seq<Process>)
      ensures edges == EdgesOf(processes)
      ensures forall x: i32, y: i32 :: (x, y) in edges <==> exists p <- processes :: p.ppid == Some(x) && p.pid == y
      ensures |edges| == |set i: nat | i < |processes| && processes[i].ppid.Some?|
    {
      edges := [];
      new;
      EdgesTell(processes);
      for i := 0 to |processes|
        invariant edges == EdgesOf(processes[..i])
      {
        assert processes[..i + 1][..i] == processes[..i];
        var p := processes[i];
        if p.ppid == None {
          continue;
        }
        edges := edges + [(p.ppid.value, p.pid)];
      }
      assert processes[..|processes|] == processes;
    }

    method Ancestors(pid: i32, includeFirst: bool) returns (ancestors: seq<i32>)
      requires WalkEnds(edges, pid)
      ensures var first := if includeFirst then 0 else 1;
              Follows(edges, pid, first, ancestors) && Walk(edges, pid, first + |ancestors|) == None
    {
      ancestors := if includeFirst then [pid] else [];
      var current := pid;
      ghost var first := if includeFirst then 0 else 1;
      ghost var limit: nat :| Walk(edges, pid, limit) == None;
      label outer: while current != 1
        invariant Arrived(edges, pid, first, ancestors, current, limit)
        decreases limit - |ancestors|
      {
        for i := 0 to |edges|
          invariant forall j | 0 <= j < i :: edges[j].1 != current
        {
          var (ppid, child) := edges[i];
          if child == current {
            ArriveAtParent(edges, pid, first, ancestors, current, limit, i);
            ancestors := ancestors + [ppid];
            current := ppid;
            continue outer;
          }
        }
        // no parent found: the tree is partial
        return;
      }
    }

    method Descendants(pid: i32) returns (descendants: set<i32>)
      ensures forall y :: y in descendants <==> Reaches(Links(), pid, y)
    {
      descendants := {};
      var pool := [pid];
      ghost var links := Links();
      ghost var children := set e | e in links :: e.1;
      while pool != []
        invariant forall y <- descendants :: Reaches(links, pid, y)
        invariant forall c <- pool :: c == pid || c in descendants
        invariant forall e <- links :: (e.0 == pid || e.0 in descendants) && e.0 !in pool ==> e.1 in descendants
        invariant descendants <= children
        decreases children - descendants, |pool|
      {
        var current := pool[|pool| - 1];
        ghost var full := pool;
        pool := pool[..|pool| - 1];
        assert full == pool + [current];
        ghost var before := descendants;
        for i := 0 to |edges|
          invariant forall y <- descendants :: Reaches(links, pid, y)
          invariant forall c <- pool :: c == pid || c in descendants
          invariant forall e <- links ::
                      (e.0 == pid || e.0 in descendants) && e.0 !in pool && e.0 != current ==> e.1 in descendants
          invariant forall j | 0 <= j < i :: edges[j].0 == current ==> edges[j].1 in descendants
          invariant before <= descendants <= children
          invariant descendants == before ==> |pool| == |full| - 1
        {
          var (parent, child) := edges[i];
          assert edges[i] in links;
          if parent == current {
            if child !in descendants {
              ReachOne(links, current, child);
              if current != pid {
                ReachTransitive(links, pid, current, child);
              }
              descendants := descendants + {child};
              pool := pool + [child];
            }
          }
        }
        if descendants != before {
          ghost var added :| added in descendants && added !in before;
          assert added in children - before && added !in children - descendants;
        }
      }
      ClosedHoldsReachable(links, descendants, pid);
    }
  }

  function EdgesOf(processes: seq<Process>): seq<Edge> {
    if processes == [] then []
    else
      var last := processes[|processes| - 1];
      EdgesOf(processes[..|processes| - 1])
      + (if last.ppid == None then [] else [(last.ppid.value, last.pid)])
  }

  // ----- shape of descendant sets

  ghost predicate OneParent(links: set<Edge>) {
    forall e, f | e in links && f in links :: e.1 == f.1 ==> e.0 == f.0
  }

  /** Each process with a readable parent gives its edge, and every edge is given by such a process. */
  lemma {:induction false} EdgeIff(processes: seq<Process>, x: i32, y: i32)
    ensures (x, y) in EdgesOf(processes) <==> exists p <- processes :: p.ppid == Some(x) && p.pid == y
  {
    if processes != [] {
      var front, last := processes[..|processes| - 1], processes[|processes| - 1];
      EdgeIff(front, x, y);
      assert processes == front + [last];
    }
  }

  function HasParent(): Process -> bool {
    (p: Process) => p.ppid.Some?
  }

  /** The edges are those of the processes with a readable parent, one after the other. */
  lemma {:induction false} EdgesSelected(processes: seq<Process>)
    ensures |EdgesOf(processes)| == |Select(processes, HasParent())|
    ensures forall i | 0 <= i < |EdgesOf(processes)| ::
              var p := Select(processes, HasParent())[i];
              p.ppid == Some(EdgesOf(processes)[i].0) && p.pid == EdgesOf(processes)[i].1
  {
    if processes != [] {
      EdgesSelected(processes[..|processes| - 1]);
    }
  }

  lemma {:induction false} EdgesTell(processes: seq<Process>)
    ensures forall x: i32, y: i32 ::
              (x, y) in EdgesOf(processes) <==> exists p <- processes :: p.ppid == Some(x) && p.pid == y
    ensures |EdgesOf(processes)| == |set i: nat | i < |processes| && processes[i].ppid.Some?|
  {
    forall x: i32, y: i32
      ensures (x, y) in EdgesOf(processes) <==> exists p <- processes :: p.ppid == Some(x) && p.pid == y
    {
      EdgeIff(processes, x, y);
    }
    EdgesSelected(processes);
    SelectCount(processes, HasParent());
    assert Positions(processes, HasParent()) == set i: nat | i < |processes| && processes[i].ppid.Some?;
  }

  /** Processes, each the parent of the next one, from a child of `x` to `y`. */
  ghost predicate IsLineage(processes: seq<Process>, line: seq<Process>, x: i32, y: i32) {
    && |line| > 0
    && (forall p <- line :: p in processes)
    && line[0].ppid == Some(x) && line[|line| - 1].pid == y
    && forall i | 0 <= i < |line| - 1 :: line[i + 1].ppid == Some(line[i].pid)
  }

  lemma {:induction false} LineageOfPath(processes: seq<Process>, path: seq<i32>, x: i32, y: i32)
    returns (line: seq<Process>)
    requires |path| >= 2 && Connects(LinksOf(EdgesOf(processes)), path, x, y)
    ensures IsLineage(processes, line, x, y)
    decreases |path|
  {
    var n := |path|;
    assert (path[n - 2], path[n - 1]) in EdgesOf(processes);
    EdgeIff(processes, path[n - 2], y);
    var p :| p in processes && p.ppid == Some(path[n - 2]) && p.pid == y;
    if n == 2 {
      line := [p];
    } else {
      var front := path[..n - 1];
      forall i | 0 <= i < |front| - 1 ensures (front[i], front[i + 1]) in LinksOf(EdgesOf(processes)) {
        assert (path[i], path[i + 1]) in LinksOf(EdgesOf(processes));
      }
      line := LineageOfPath(processes, front, x, path[n - 2]);
      line := line + [p];
    }
  }

  lemma {:induction false} LineageReaches(processes: seq<Process>, line: seq<Process>, x: i32, y: i32)
    requires IsLineage(processes, line, x, y)
    ensures Reaches(LinksOf(EdgesOf(processes)), x, y)
    decreases |line|
  {
    var links := LinksOf(EdgesOf(processes));
    var last := |line| - 1;
    var parent := if last == 0 then x else line[last - 1].pid;
    assert line[last] in processes && line[last].ppid == Some(parent);
    EdgeIff(processes, parent, y);
    ReachOne(links, parent, y);
    if last > 0 {
      assert forall p <- line[..last] :: p in line;
      LineageReaches(processes, line[..last], x, parent);
      ReachTransitive(links, x, parent, y);
    }
  }

  /** In the built tree the descendants of `x` are the ends of its lineages, its children among them. */
  lemma {:induction false} DescendantsAreLineages(processes: seq<Process>, x: i32, y: i32)
    ensures Reaches(LinksOf(EdgesOf(processes)), x, y) <==> exists line :: IsLineage(processes, line, x, y)
  {
    if Reaches(LinksOf(EdgesOf(processes)), x, y) {
      var path :| |path| >= 2 && Connects(LinksOf(EdgesOf(processes)), path, x, y);
      var line := LineageOfPath(processes, path, x, y);
    }
    if line :| IsLineage(processes, line, x, y) {
      LineageReaches(processes, line, x, y);
    }
  }

  /** Every process with a readable parent is a descendant of that parent. */
  lemma {:induction false} ChildIsDescendant(processes: seq<Process>, p: Process)
    requires p in processes && p.ppid.Some?
    ensures Reaches(LinksOf(EdgesOf(processes)), p.ppid.value, p.pid)
  {
    assert IsLineage(processes, [p], p.ppid.value, p.pid);
    LineageReaches(processes, [p], p.ppid.value, p.pid);
  }

  /** The tree built from processes with different pids gives each of them one parent at most. */
  lemma {:induction false} TreeHasOneParent(processes: seq<Process>)
    requires forall i, j | 0 <= i < j < |processes| :: processes[i].pid != processes[j].pid
    ensures OneParent(LinksOf(EdgesOf(processes)))
  {
    forall d, e | d in EdgesOf(processes) && e in EdgesOf(processes) && d.1 == e.1 ensures d == e {
      EdgeIff(processes, d.0, d.1);
      EdgeIff(processes, e.0, e.1);
      var p :| p in processes && p.ppid == Some(d.0) && p.pid == d.1;
      var q :| q in processes && q.ppid == Some(e.0) && q.pid == e.1;
      var i :| 0 <= i < |processes| && processes[i] == p;
      var j :| 0 <= j < |processes| && processes[j] == q;
    }
  }

  /** Read backwards from their common end, two paths agree as long as both last. */
  lemma {:induction false} PathsAgree(links: set<Edge>, p: seq<i32>, q: seq<i32>, k: nat)
    requires OneParent(links) && IsPath(links, p) && IsPath(links, q)
    requires 0 < |p| <= |q| && p[|p| - 1] == q[|q| - 1] && k < |p|
    ensures p[|p| - 1 - k] == q[|q| - 1 - k]
  {
    if k > 0 {
      PathsAgree(links, p, q, k - 1);
      assert (p[|p| - 1 - k], p[|p| - 1 - k + 1]) in links;
      assert (q[|q| - 1 - k], q[|q| - 1 - k + 1]) in links;
    }
  }

  lemma {:induction false} MeetingPaths(links: set<Edge>, p: seq<i32>, q: seq<i32>, x: i32, y: i32, z: i32)
    requires OneParent(links) && Connects(links, p, x, z) && Connects(links, q, y, z) && |p| <= |q|
    ensures x == y || Reaches(links, y, x)
  {
    PathsAgree(links, p, q, |p| - 1);
    var top := q[..|q| - |p| + 1];
    if |top| >= 2 {
      assert Connects(links, top, y, x);
    }
  }

  /** With one parent a process, two families are nested or have nobody in common, cycles or not. */
  lemma {:induction false} Laminar(links: set<Edge>, x: i32, y: i32)
    requires OneParent(links)
    ensures || (forall z :: Reaches(links, x, z) ==> Reaches(links, y, z))
            || (forall z :: Reaches(links, y, z) ==> Reaches(links, x, z))
            || (forall z :: !(Reaches(links, x, z) && Reaches(links, y, z)))
  {
    if z :| Reaches(links, x, z) && Reaches(links, y, z) {
      var p :| |p| >= 2 && Connects(links, p, x, z);
      var q :| |q| >= 2 && Connects(links, q, y, z);
      var (a, b) := if |p| <= |q| then (x, y) else (y, x);
      MeetingPaths(links, if |p| <= |q| then p else q, if |p| <= |q| then q else p, a, b, z);
      forall w | Reaches(links, a, w) ensures Reaches(links, b, w) {
        if a != b {
          ReachTransitive(links, b, a, w);
        }
      }
    }
  }

  // ----- ancestors against descendants

  /** A path down from `y` to `x` on which only the first process may be pid 1. */
  ghost predicate DownPath(edges: seq<Edge>, p: seq<i32>, y: i32, x: i32) {
    Connects(LinksOf(edges), p, y, x) && 1 !in p[1..]
  }

  lemma {:induction false} ExtendDownPath(edges: seq<Edge>, p: seq<i32>, y: i32, c: i32, x: i32)
    requires DownPath(edges, p, c, x) && c != 1 && (y, c) in edges
    ensures DownPath(edges, [y] + p, y, x)
  {
    var q := [y] + p;
    assert p == [c] + p[1..] && q[1..] == p;
    forall i | 0 <= i < |q| - 1 ensures (q[i], q[i + 1]) in LinksOf(edges) {
      if i > 0 {
        assert (p[i - 1], p[i]) in LinksOf(edges);
      }
    }
  }

  lemma {:induction false} WalkIsDownPath(edges: seq<Edge>, x: i32, y: i32, n: nat) returns (p: seq<i32>)
    requires Walk(edges, x, n) == Some(y)
    ensures |p| == n + 1 && DownPath(edges, p, y, x)
    decreases n
  {
    if n == 0 {
      p := [x];
    } else {
      var c := Walk(edges, x, n - 1).value;
      p := WalkIsDownPath(edges, x, c, n - 1);
      ExtendDownPath(edges, p, y, c, x);
      p := [y] + p;
    }
  }

  lemma {:induction false} DownPathIsWalk(edges: seq<Edge>, p: seq<i32>, x: i32, y: i32)
    requires OneParent(LinksOf(edges)) && DownPath(edges, p, y, x)
    ensures Walk(edges, x, |p| - 1) == Some(y)
  {
    if |p| > 1 {
      var q := p[1..];
      assert (p[0], p[1]) in LinksOf(edges);
      forall i | 0 <= i < |q| - 1 ensures (q[i], q[i + 1]) in LinksOf(edges) {
        assert (p[i + 1], p[i + 2]) in LinksOf(edges);
      }
      DownPathIsWalk(edges, q, x, p[1]);
      assert p[1] in q;
    }
  }

  ghost predicate MeetsAt(edges: seq<Edge>, x: i32, y: i32, n: nat) {
    n > 0 && Walk(edges, x, n) == Some(y)
  }

  /** `x` is reached from `y` without passing below pid 1. */
  ghost predicate ReachesDown(edges: seq<Edge>, y: i32, x: i32) {
    exists p :: |p| >= 2 && DownPath(edges, p, y, x)
  }

  /** Those from which `x` is reached are exactly those met on the walk up from `x`. */
  lemma {:induction false} AncestorsAreReachers(edges: seq<Edge>, x: i32, y: i32)
    requires OneParent(LinksOf(edges))
    ensures (exists n: nat :: MeetsAt(edges, x, y, n)) <==> ReachesDown(edges, y, x)
  {
    if n: nat :| MeetsAt(edges, x, y, n) {
      var p := WalkIsDownPath(edges, x, y, n);
    }
    if p :| |p| >= 2 && DownPath(edges, p, y, x) {
      DownPathIsWalk(edges, p, x, y);
      assert MeetsAt(edges, x, y, |p| - 1);
    }
  }

  // ----- when the walk ends

  ghost predicate WalkRepeats(edges: seq<Edge>, x: i32) {
    exists i: nat, j: nat :: i < j && Walk(edges, x, i).Some? && Walk(edges, x, i) == Walk(edges, x, j)
  }

  lemma {:induction false} WalkFrom(edges: seq<Edge>, x: i32, i: nat, j: nat, k: nat)
    requires Walk(edges, x, i) == Walk(edges, x, j)
    ensures Walk(edges, x, i + k) == Walk(edges, x, j + k)
  {
    if k > 0 {
      WalkFrom(edges, x, i, j, k - 1);
    }
  }

  lemma {:induction false} RepeatingNeverEnds(edges: seq<Edge>, x: i32, i: nat, j: nat, n: nat)
    requires i < j && Walk(edges, x, i).Some? && Walk(edges, x, i) == Walk(edges, x, j)
    ensures Walk(edges, x, n).Some?
  {
    if Walk(edges, x, n) == None {
      if n <= j {
        WalkStaysEnded(edges, x, n, j);
      } else {
        WalkFrom(edges, x, i, j, n - j);
        RepeatingNeverEnds(edges, x, i, j, i + (n - j));
      }
    }
  }

  /** The processes met in the first `n` steps. */
  ghost function Met(edges: seq<Edge>, x: i32, n: nat): set<i32>
    requires Walk(edges, x, n).Some?
  {
    (if n == 0 then {} else Met(edges, x, n - 1)) + {Walk(edges, x, n).value}
  }

  lemma {:induction false} MetAtStep(edges: seq<Edge>, x: i32, n: nat, y: i32)
    requires Walk(edges, x, n).Some? && y in Met(edges, x, n)
    ensures exists i: nat :: i <= n && Walk(edges, x, i) == Some(y)
    ensures y == x || exists e <- edges :: e.0 == y
    decreases n
  {
    if y == Walk(edges, x, n).value {
      if n > 0 {
        assert (y, Walk(edges, x, n - 1).value) in edges;
      }
    } else {
      MetAtStep(edges, x, n - 1, y);
    }
  }

  lemma {:induction false} MetSize(edges: seq<Edge>, x: i32, n: nat)
    requires Walk(edges, x, n).Some? && !WalkRepeats(edges, x)
    ensures |Met(edges, x, n)| == n + 1
    decreases n
  {
    if n > 0 {
      MetSize(edges, x, n - 1);
      var y := Walk(edges, x, n).value;
      if y in Met(edges, x, n - 1) {
        MetAtStep(edges, x, n - 1, y);
        assert false;
      }
    }
  }

  /** `ancestors` returns exactly when the walk meets no process twice. */
  lemma {:induction false} WalkEndsIffNoRepeat(edges: seq<Edge>, x: i32)
    ensures WalkEnds(edges, x) <==> !WalkRepeats(edges, x)
  {
    if WalkRepeats(edges, x) {
      var i: nat, j: nat :| i < j && Walk(edges, x, i).Some? && Walk(edges, x, i) == Walk(edges, x, j);
      forall n: nat ensures Walk(edges, x, n).Some? {
        RepeatingNeverEnds(edges, x, i, j, n);
      }
    } else {
      var bound := {x} + set e | e in edges :: e.0;
      if Walk(edges, x, |bound|).Some? {
        var met := Met(edges, x, |bound|);
        forall y <- met ensures y in bound {
          MetAtStep(edges, x, |bound|, y);
        }
        MetSize(edges, x, |bound|);
        SubsetSize(met, bound);
        assert false;
      }
    }
  }

  /** An ended walk meets no process twice, so `ancestors` has no duplicates. */
  lemma {:induction false} AncestorsDistinct(edges: seq<Edge>, x: i32, first: nat, ys: seq<i32>)
    requires WalkEnds(edges, x) && Follows(edges, x, first, ys)
    ensures forall i, j | 0 <= i < j < |ys| :: ys[i] != ys[j]
  {
    WalkEndsIffNoRepeat(edges, x);
    forall i, j | 0 <= i < j < |ys| ensures ys[i] != ys[j] {
      assert Walk(edges, x, first + i) == Some(ys[i]);
      assert Walk(edges, x, first + j) == Some(ys[j]);
    }
  }

  lemma {:induction false} WalkOn(edges: seq<Edge>, x: i32, z: i32, i: nat, k: nat)
    requires Walk(edges, x, i) == Some(z)
    ensures Walk(edges, x, i + k) == Walk(edges, z, k)
  {
    if k > 0 {
      WalkOn(edges, x, z, i, k - 1);
    }
  }

  /** Without a cycle every walk ends, even when several parents are listed for a process. */
  lemma {:induction false} AcyclicWalksEnd(edges: seq<Edge>, x: i32)
    requires forall z :: !Reaches(LinksOf(edges), z, z)
    ensures WalkEnds(edges, x)
  {
    WalkEndsIffNoRepeat(edges, x);
    if WalkRepeats(edges, x) {
      var i: nat, j: nat :| i < j && Walk(edges, x, i).Some? && Walk(edges, x, i) == Walk(edges, x, j);
      var z := Walk(edges, x, i).value;
      WalkOn(edges, x, z, i, j - i);
      var p := WalkIsDownPath(edges, z, z, j - i);
      assert Reaches(LinksOf(edges), z, z);
    }
  }

  /** What `ancestors(x, false)` returns: the processes from which `x` is reached without passing below pid 1. */
  lemma {:induction false} AncestorsMembers(edges: seq<Edge>, x: i32, ys: seq<i32>, y: i32)
    requires OneParent(LinksOf(edges))
    requires Follows(edges, x, 1, ys) && Walk(edges, x, 1 + |ys|) == None
    ensures y in ys <==> ReachesDown(edges, y, x)
  {
    AncestorsAreReachers(edges, x, y);
    if y in ys {
      var i :| 0 <= i < |ys| && ys[i] == y;
      assert MeetsAt(edges, x, y, 1 + i);
    }
    if n: nat :| MeetsAt(edges, x, y, n) {
      if n > |ys| {
        WalkStaysEnded(edges, x, 1 + |ys|, n);
      }
      assert Walk(edges, x, 1 + (n - 1)) == Some(ys[n - 1]);
    }
  }

  /** Two processes that name each other as parent: `ancestors` never returns. */
  lemma {:induction false} ParentCycleNeverEnds()
    ensures !WalkEnds([(2, 3), (3, 2)], 2)
  {
    var edges: seq<Edge> := [(2, 3), (3, 2)];
    assert Parent(edges, 3) == Some(2);
    assert Parent(edges, 2) == Some(3) by { assert edges[1..][0] == (3, 2); }
    assert Walk(edges, 2, 0) == Some(2);
    assert Walk(edges, 2, 1) == Some(3);
    assert Walk(edges, 2, 2) == Some(2);
    WalkEndsIffNoRepeat(edges, 2);
  }
}
