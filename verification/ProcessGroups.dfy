/** Memory information of a process and of a group of processes. */
module ProcessGroups {
  import opened Decimal
  import opened Processes
  import opened Sequences

  type Pfn = nat
  /** (swap type, offset) */
  type SwapPage = (nat, nat)

  datatype Shm = Shm(key: int, shmid: nat, rss: nat, swap: nat)

  datatype ShmReference = ShmReference(key: int, shmid: nat)

  datatype ProcessInfo = ProcessInfo(
    process: Process,
    uid: u32,
    environ: map<string, string>,
    pfns: set<Pfn>,
    anonPfns: set<Pfn>,
    swapPages: set<SwapPage>,
    anonSwapPages: set<SwapPage>,
    referencedShms: set<Shm>,
    rss: nat,
    vsz: nat,
    pte: nat,
    fds: nat,
    unknownShm: set<ShmReference>)

  datatype ProcessGroupInfo = ProcessGroupInfo(
    name: string,
    processes: seq<ProcessInfo>,
    pfns: set<Pfn>,
    anonPfns: set<Pfn>,
    swapPages: set<SwapPage>,
    anonSwapPages: set<SwapPage>,
    referencedShm: set<Shm>,
    pte: nat,
    fds: nat)

  function Total(processes: seq<ProcessInfo>, amount: ProcessInfo -> nat): nat {
    if processes == [] then 0
    else Total(processes[..|processes| - 1], amount) + amount(processes[|processes| - 1])
  }

  /** Everything that some process has. */
  function AllOf<X(==)>(processes: seq<ProcessInfo>, field: ProcessInfo -> set<X>): set<X> {
    set p, x | p in processes && x in field(p) :: x
  }

  function PteOf(p: ProcessInfo): nat { p.pte }

  function FdsOf(p: ProcessInfo): nat { p.fds }

  function PfnsOf(p: ProcessInfo): set<Pfn> { p.pfns }

  function AnonPfnsOf(p: ProcessInfo): set<Pfn> { p.anonPfns }

  function SwapPagesOf(p: ProcessInfo): set<SwapPage> { p.swapPages }

  function AnonSwapPagesOf(p: ProcessInfo): set<SwapPage> { p.anonSwapPages }

  function ShmsOf(p: ProcessInfo): set<Shm> { p.referencedShms }

  /** The group made of these processes: unions of pages, sums of counts. */
  function GroupOf(processes: seq<ProcessInfo>, name: string): ProcessGroupInfo {
    ProcessGroupInfo(
      name,
      processes,
      AllOf(processes, PfnsOf),
      AllOf(processes, AnonPfnsOf),
      AllOf(processes, SwapPagesOf),
      AllOf(processes, AnonSwapPagesOf),
      AllOf(processes, ShmsOf),
      Total(processes, PteOf),
      Total(processes, FdsOf))
  }

  lemma {:induction false} AllPush<X>(processes: seq<ProcessInfo>, p: ProcessInfo, field: ProcessInfo -> set<X>)
    ensures AllOf(processes + [p], field) == AllOf(processes, field) + field(p)
  {
    assert p in processes + [p];
  }

  lemma {:induction false} GroupPush(processes: seq<ProcessInfo>, p: ProcessInfo, name: string)
    ensures var g := GroupOf(processes, name);
            GroupOf(processes + [p], name) == ProcessGroupInfo(
              name, processes + [p], g.pfns + p.pfns, g.anonPfns + p.anonPfns, g.swapPages + p.swapPages,
              g.anonSwapPages + p.anonSwapPages, g.referencedShm + p.referencedShms, g.pte + p.pte, g.fds + p.fds)
  {
    AllPush(processes, p, PfnsOf);
    AllPush(processes, p, AnonPfnsOf);
    AllPush(processes, p, SwapPagesOf);
    AllPush(processes, p, AnonSwapPagesOf);
    AllPush(processes, p, ShmsOf);
    assert (processes + [p])[..|processes|] == processes;
  }

  method GetProcessesGroupInfo(processes: seq<ProcessInfo>, name: string) returns (g: ProcessGroupInfo)
    ensures g == GroupOf(processes, name)
  {
    var pfns: set<Pfn> := {};
    var anonPfns: set<Pfn> := {};
    var swapPages: set<SwapPage> := {};
    var anonSwapPages: set<SwapPage> := {};
    var referencedShm: set<Shm> := {};
    var pte: nat := 0;
    var fds: nat := 0;
    for i := 0 to |processes|
      invariant ProcessGroupInfo(
                  name, processes[..i], pfns, anonPfns, swapPages, anonSwapPages, referencedShm, pte, fds)
             == GroupOf(processes[..i], name)
    {
      var p := processes[i];
      GroupPush(processes[..i], p, name);
      assert processes[..i + 1] == processes[..i] + [p];
      pfns := pfns + p.pfns;
      anonPfns := anonPfns + p.anonPfns;
      swapPages := swapPages + p.swapPages;
      anonSwapPages := anonSwapPages + p.anonSwapPages;
      referencedShm := referencedShm + p.referencedShms;
      pte := pte + p.pte;
      fds := fds + p.fds;
    }
    assert processes[..|processes|] == processes;
    g := ProcessGroupInfo(
      name, processes, pfns, anonPfns, swapPages, anonSwapPages, referencedShm, pte, fds);
  }

  // ----- a group depends on its processes, not on their order

  lemma {:induction false} TotalConcat(a: seq<ProcessInfo>, b: seq<ProcessInfo>, amount: ProcessInfo -> nat)
    ensures Total(a + b, amount) == Total(a, amount) + Total(b, amount)
  {
    if b == [] {
      assert a + b == a;
    } else {
      assert (a + b)[..|a + b| - 1] == a + b[..|b| - 1];
      TotalConcat(a, b[..|b| - 1], amount);
    }
  }

  lemma {:induction false} TotalMiddle(
    a: seq<ProcessInfo>, x: ProcessInfo, b: seq<ProcessInfo>, amount: ProcessInfo -> nat)
    ensures Total(a + [x] + b, amount) == Total(a + b, amount) + amount(x)
  {
    assert (a + [x])[..|a|] == a;
    TotalConcat(a + [x], b, amount);
    TotalConcat(a, b, amount);
  }

  lemma {:induction false} TotalWithout(s: seq<ProcessInfo>, i: nat, amount: ProcessInfo -> nat)
    requires i < |s|
    ensures Total(s, amount) == Total(Without(s, i), amount) + amount(s[i])
  {
    assert s[..i] + [s[i]] + s[i + 1..] == s;
    TotalMiddle(s[..i], s[i], s[i + 1..], amount);
  }

  lemma {:induction false} TotalPermuted(a: seq<ProcessInfo>, b: seq<ProcessInfo>, amount: ProcessInfo -> nat)
    requires multiset(a) == multiset(b)
    ensures Total(a, amount) == Total(b, amount)
    decreases |a|
  {
    if a == [] {
      assert |multiset(b)| == 0;
    } else {
      var last := |a| - 1;
      assert a[last] in multiset(b);
      var i :| 0 <= i < |b| && b[i] == a[last];
      MultisetWithout(a, last);
      MultisetWithout(b, i);
      TotalWithout(a, last, amount);
      TotalWithout(b, i, amount);
      TotalPermuted(Without(a, last), Without(b, i), amount);
    }
  }

  lemma {:induction false} SameMembers(a: seq<ProcessInfo>, b: seq<ProcessInfo>)
    requires multiset(a) == multiset(b)
    ensures |a| == |b| && forall p :: p in a <==> p in b
  {
    assert |multiset(a)| == |multiset(b)|;
    forall p ensures p in a <==> p in b {
      assert p in a <==> p in multiset(a);
      assert p in b <==> p in multiset(b);
    }
  }

  lemma {:induction false} GroupPermuted(a: seq<ProcessInfo>, b: seq<ProcessInfo>, name: string)
    requires multiset(a) == multiset(b)
    ensures GroupOf(a, name).(processes := b) == GroupOf(b, name) && |a| == |b|
  {
    SameMembers(a, b);
    TotalPermuted(a, b, PteOf);
    TotalPermuted(a, b, FdsOf);
  }

  /** What a group of one process is, and what two groups are together: this tells what every group is. */
  lemma {:induction false} GroupOfOne(p: ProcessInfo, name: string)
    ensures GroupOf([], name) == ProcessGroupInfo(name, [], {}, {}, {}, {}, {}, 0, 0)
    ensures GroupOf([p], name) == ProcessGroupInfo(
              name, [p], p.pfns, p.anonPfns, p.swapPages, p.anonSwapPages, p.referencedShms, p.pte, p.fds)
  {
    GroupPush([], p, name);
    assert [] + [p] == [p];
  }

  lemma {:induction false} AllJoin<X>(a: seq<ProcessInfo>, b: seq<ProcessInfo>, field: ProcessInfo -> set<X>)
    ensures AllOf(a + b, field) == AllOf(a, field) + AllOf(b, field)
  {
  }

  lemma {:induction false} GroupsJoin(a: seq<ProcessInfo>, b: seq<ProcessInfo>, name: string)
    ensures var g, h, both := GroupOf(a, name), GroupOf(b, name), GroupOf(a + b, name);
            && both.name == name && both.processes == a + b
            && both.pfns == g.pfns + h.pfns && both.anonPfns == g.anonPfns + h.anonPfns
            && both.swapPages == g.swapPages + h.swapPages
            && both.anonSwapPages == g.anonSwapPages + h.anonSwapPages
            && both.referencedShm == g.referencedShm + h.referencedShm
            && both.pte == g.pte + h.pte && both.fds == g.fds + h.fds
  {
    AllJoin(a, b, PfnsOf);
    AllJoin(a, b, AnonPfnsOf);
    AllJoin(a, b, SwapPagesOf);
    AllJoin(a, b, AnonSwapPagesOf);
    AllJoin(a, b, ShmsOf);
    TotalConcat(a, b, PteOf);
    TotalConcat(a, b, FdsOf);
  }

  // ----- grouping by a key

  function HasKey<K(==)>(key: ProcessInfo -> K, k: K): ProcessInfo -> bool {
    p => key(p) == k
  }

  function LacksKey<K(==)>(key: ProcessInfo -> K, k: K): ProcessInfo -> bool {
    p => key(p) != k
  }

  function Class<K(==)>(processes: seq<ProcessInfo>, key: ProcessInfo -> K, k: K): seq<ProcessInfo> {
    Select(processes, HasKey(key, k))
  }

  /** One group for each of `keys`: the processes with that key, in their order. */
  function GroupsBy<K(==)>(
    keys: set<K>, processes: seq<ProcessInfo>, key: ProcessInfo -> K, title: K -> string)
    : map<K, ProcessGroupInfo>
  {
    map k | k in keys :: GroupOf(Class(processes, key, k), title(k))
  }

  function KeysOf<K(==)>(processes: seq<ProcessInfo>, key: ProcessInfo -> K): set<K> {
    set p | p in processes :: key(p)
  }

  /** The processes of the groups, group after group. */
  function Flatten<K(==)>(groups: map<K, ProcessGroupInfo>, order: seq<K>): seq<ProcessInfo>
    requires forall k <- order :: k in groups
  {
    if order == [] then []
    else Flatten(groups, order[..|order| - 1]) + groups[order[|order| - 1]].processes
  }

  ghost predicate CollectedBy<K>(processes: seq<ProcessInfo>, groups: map<K, ProcessGroupInfo>, order: seq<K>) {
    && IsOrdering(order, groups.Keys)
    && (forall k <- order :: k in groups)
    && processes == Flatten(groups, order)
  }

  /** The processes of all the groups, group after group, in some order of the groups. */
  ghost predicate Collected<K(!new)>(processes: seq<ProcessInfo>, groups: map<K, ProcessGroupInfo>) {
    exists order :: CollectedBy(processes, groups, order)
  }

  lemma {:induction false} FlattenCount<K>(
    keys: set<K>, processes: seq<ProcessInfo>, key: ProcessInfo -> K, title: K -> string,
    order: seq<K>, p: ProcessInfo)
    requires Distinct(order) && forall k <- order :: k in keys
    ensures multiset(Flatten(GroupsBy(keys, processes, key, title), order))[p]
         == if key(p) in order then multiset(processes)[p] else 0
  {
    if order != [] {
      var front, k := order[..|order| - 1], order[|order| - 1];
      assert order == front + [k];
      FlattenCount(keys, processes, key, title, front, p);
      SelectMultiset(processes, HasKey(key, k), p);
    }
  }

  /** Grouping by a key loses no process and invents none, in whatever order the groups are collected. */
  lemma {:induction false} GroupingConserves<K>(
    keys: set<K>, processes: seq<ProcessInfo>, key: ProcessInfo -> K, title: K -> string, order: seq<K>)
    requires KeysOf(processes, key) <= keys && IsOrdering(order, keys)
    ensures multiset(Flatten(GroupsBy(keys, processes, key, title), order)) == multiset(processes)
  {
    var all := Flatten(GroupsBy(keys, processes, key, title), order);
    forall p ensures multiset(all)[p] == multiset(processes)[p] {
      FlattenCount(keys, processes, key, title, order, p);
      if p in multiset(processes) {
        assert key(p) in KeysOf(processes, key);
      }
    }
    assert multiset(all) == multiset(processes);
  }

  /** Grouping a permutation of the processes gives the same groups, up to the order inside each. */
  lemma {:induction false} GroupingPermuted<K>(
    keys: set<K>, a: seq<ProcessInfo>, b: seq<ProcessInfo>, key: ProcessInfo -> K, title: K -> string, k: K)
    requires multiset(a) == multiset(b) && k in keys
    ensures var g, h := GroupsBy(keys, a, key, title)[k], GroupsBy(keys, b, key, title)[k];
            g.(processes := h.processes) == h && |g.processes| == |h.processes|
  {
    SelectPermuted(a, b, HasKey(key, k));
    GroupPermuted(Class(a, key, k), Class(b, key, k), title(k));
  }
}
