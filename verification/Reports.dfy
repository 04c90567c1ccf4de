/** The table shown for a set of groups, and what its columns add up to. */
module Reports {
  import opened Sequences
  import opened ProcessGroups
  import opened Accounting

  /** The page columns of a row, in bytes. */
  datatype Row = Row(
    groupName: string,
    procs: nat,
    memRss: nat,
    memAnon: nat,
    memUss: nat,
    swapRss: nat,
    swapAnon: nat,
    swapUss: nat)

  function GroupPfns(g: ProcessGroupInfo): set<Pfn> { g.pfns }

  function GroupSwap(g: ProcessGroupInfo): set<SwapPage> { g.swapPages }

  /** The pages of the groups of `seen` whose name is not that of group `k`: groups are compared by name only. */
  function OthersAmong<K(==), X(==)>(
    groups: map<K, ProcessGroupInfo>, seen: set<K>, k: K, field: ProcessGroupInfo -> set<X>): set<X>
    requires k in groups && seen <= groups.Keys
  {
    set j, x | j in seen && groups[j].name != groups[k].name && x in field(groups[j]) :: x
  }

  function Others<K(==), X(==)>(
    groups: map<K, ProcessGroupInfo>, k: K, field: ProcessGroupInfo -> set<X>): set<X>
    requires k in groups
  {
    OthersAmong(groups, groups.Keys, k, field)
  }

  lemma {:induction false} OthersStep<K, X>(
    groups: map<K, ProcessGroupInfo>, seen: set<K>, k: K, field: ProcessGroupInfo -> set<X>, j: K)
    requires k in groups && seen <= groups.Keys && j in groups
    ensures OthersAmong(groups, seen + {j}, k, field)
         == OthersAmong(groups, seen, k, field)
            + if groups[j].name != groups[k].name then field(groups[j]) else {}
  {
  }

  function RowOf<K(==)>(groups: map<K, ProcessGroupInfo>, k: K, pageSize: nat): Row
    requires k in groups
  {
    var g := groups[k];
    Row(g.name, |g.processes|,
        |g.pfns| * pageSize, |g.anonPfns| * pageSize, |g.pfns - Others(groups, k, GroupPfns)| * pageSize,
        |g.swapPages| * pageSize, |g.anonSwapPages| * pageSize,
        |g.swapPages - Others(groups, k, GroupSwap)| * pageSize)
  }

  /** `rows` has one row for each group, in the order `order`. */
  ghost predicate Shows<K>(rows: seq<Row>, groups: map<K, ProcessGroupInfo>, order: seq<K>, pageSize: nat) {
    && IsOrdering(order, groups.Keys)
    && |rows| == |order|
    && forall i | 0 <= i < |order| :: order[i] in groups && rows[i] == RowOf(groups, order[i], pageSize)
  }

  /** `rows` has one row for each group, in some order. */
  ghost predicate IsTable<K(!new)>(rows: seq<Row>, groups: map<K, ProcessGroupInfo>, pageSize: nat) {
    exists order :: Shows(rows, groups, order, pageSize)
  }

  /** The inner loop of `display`: what the groups with another name have. */
  method OtherPages<K(==)>(groups: map<K, ProcessGroupInfo>, k: K)
    returns (otherPfns: set<Pfn>, otherSwap: set<SwapPage>)
    requires k in groups
    ensures otherPfns == Others(groups, k, GroupPfns) && otherSwap == Others(groups, k, GroupSwap)
  {
    otherPfns, otherSwap := {}, {};
    var todo := groups.Keys;
    ghost var seen: set<K> := {};
    while todo != {}
      invariant todo <= groups.Keys && seen == groups.Keys - todo
      invariant otherPfns == OthersAmong(groups, seen, k, GroupPfns)
      invariant otherSwap == OthersAmong(groups, seen, k, GroupSwap)
    {
      var j :| j in todo;
      OthersStep(groups, seen, k, GroupPfns, j);
      OthersStep(groups, seen, k, GroupSwap, j);
      if groups[j].name != groups[k].name {
        otherPfns := otherPfns + groups[j].pfns;
        otherSwap := otherSwap + groups[j].swapPages;
      }
      todo := todo - {j};
      seen := seen + {j};
    }
    assert seen == groups.Keys;
  }

  method Display<K(==, !new)>(groups: map<K, ProcessGroupInfo>, pageSize: nat) returns (rows: seq<Row>)
    ensures IsTable(rows, groups, pageSize)
  {
    rows := [];
    ghost var order: seq<K> := [];
    var todo := groups.Keys;
    while todo != {}
      invariant todo <= groups.Keys
      invariant IsOrdering(order, groups.Keys - todo)
      invariant |rows| == |order|
      invariant forall i | 0 <= i < |order| :: order[i] in groups && rows[i] == RowOf(groups, order[i], pageSize)
    {
      var k :| k in todo;
      var g := groups[k];
      var otherPfns, otherSwap := OtherPages(groups, k);
      var row := Row(
        g.name, |g.processes|,
        |g.pfns| * pageSize, |g.anonPfns| * pageSize, |g.pfns - otherPfns| * pageSize,
        |g.swapPages| * pageSize, |g.anonSwapPages| * pageSize, |g.swapPages - otherSwap| * pageSize);
      OrderingPush(order, groups.Keys - todo, k);
      rows := rows + [row];
      order := order + [k];
      todo := todo - {k};
    }
    assert groups.Keys - todo == groups.Keys;
    assert Shows(rows, groups, order, pageSize);
  }

  // ----- what the columns add up to

  ghost predicate DistinctNames<K>(groups: map<K, ProcessGroupInfo>) {
    forall j, k | j in groups && k in groups && j != k :: groups[j].name != groups[k].name
  }

  /** The pages of each group. */
  function PagesIn<K(==), X>(groups: map<K, ProcessGroupInfo>, field: ProcessGroupInfo -> set<X>): map<K, set<X>> {
    map k | k in groups :: field(groups[k])
  }

  /** A row never subtracts what only its group has. */
  lemma {:induction false} RowKeepsExclusive<K, X>(
    groups: map<K, ProcessGroupInfo>, k: K, field: ProcessGroupInfo -> set<X>)
    requires k in groups
    ensures Exclusive(PagesIn(groups, field), k) <= field(groups[k]) - Others(groups, k, field)
  {
    forall x | x in Exclusive(PagesIn(groups, field), k) ensures x !in Others(groups, k, field) {
      forall j | j in groups && j != k ensures x !in field(groups[j]) {
        assert x !in PagesIn(groups, field)[j];
      }
    }
  }

  /** With distinct names, it subtracts everything else. */
  lemma {:induction false} RowIsExclusive<K, X>(
    groups: map<K, ProcessGroupInfo>, k: K, field: ProcessGroupInfo -> set<X>)
    requires k in groups && DistinctNames(groups)
    ensures field(groups[k]) - Others(groups, k, field) == Exclusive(PagesIn(groups, field), k)
  {
    RowKeepsExclusive(groups, k, field);
    forall x | x in field(groups[k]) - Others(groups, k, field) ensures x in Exclusive(PagesIn(groups, field), k) {
      forall j | j in groups && j != k ensures x !in PagesIn(groups, field)[j] {
        assert groups[j].name != groups[k].name;
      }
    }
  }

  function Column(rows: seq<Row>, cell: Row -> nat): nat {
    if rows == [] then 0 else Column(rows[..|rows| - 1], cell) + cell(rows[|rows| - 1])
  }

  lemma {:induction false} ColumnSum<K, X>(
    rows: seq<Row>, cell: Row -> nat, family: map<K, set<X>>, order: seq<K>, pageSize: nat)
    requires |rows| == |order| && forall k <- order :: k in family
    requires forall i | 0 <= i < |rows| :: cell(rows[i]) == |family[order[i]]| * pageSize
    ensures Column(rows, cell) == SumSizes(family, order) * pageSize
  {
    if rows != [] {
      var last := |rows| - 1;
      ColumnSum(rows[..last], cell, family, order[..last], pageSize);
      Distribute(SumSizes(family, order[..last]), |family[order[last]]|, pageSize);
    }
  }

  lemma {:induction false} Distribute(a: nat, b: nat, c: nat)
    ensures (a + b) * c == a * c + b * c
  {
  }

  lemma {:induction false} Monotone(a: nat, b: nat, c: nat)
    requires a <= b
    ensures a * c <= b * c
  {
    Distribute(a, b - a, c);
  }

  function MemRssCell(r: Row): nat { r.memRss }

  function MemUssCell(r: Row): nat { r.memUss }

  function SwapRssCell(r: Row): nat { r.swapRss }

  function SwapUssCell(r: Row): nat { r.swapUss }

  /** The cells of a row for one kind of page. */
  ghost predicate RowHas<K, X>(
    row: Row, groups: map<K, ProcessGroupInfo>, k: K, pageSize: nat,
    field: ProcessGroupInfo -> set<X>, rss: Row -> nat, uss: Row -> nat)
    requires k in groups
  {
    && rss(row) == |field(groups[k])| * pageSize
    && uss(row) == |field(groups[k]) - Others(groups, k, field)| * pageSize
  }

  ghost predicate HasCells<K, X>(
    rows: seq<Row>, groups: map<K, ProcessGroupInfo>, order: seq<K>, pageSize: nat,
    field: ProcessGroupInfo -> set<X>, rss: Row -> nat, uss: Row -> nat)
  {
    && IsOrdering(order, groups.Keys)
    && |rows| == |order|
    && (forall k <- order :: k in groups)
    && forall i | 0 <= i < |rows| :: RowHas(rows[i], groups, order[i], pageSize, field, rss, uss)
  }

  lemma {:induction false} MemoryRow<K>(groups: map<K, ProcessGroupInfo>, k: K, pageSize: nat)
    requires k in groups
    ensures RowHas(RowOf(groups, k, pageSize), groups, k, pageSize, GroupPfns, MemRssCell, MemUssCell)
  {
  }

  lemma {:induction false} SwapRow<K>(groups: map<K, ProcessGroupInfo>, k: K, pageSize: nat)
    requires k in groups
    ensures RowHas(RowOf(groups, k, pageSize), groups, k, pageSize, GroupSwap, SwapRssCell, SwapUssCell)
  {
  }

  lemma {:induction false} TableHasCells<K>(
    rows: seq<Row>, groups: map<K, ProcessGroupInfo>, order: seq<K>, pageSize: nat)
    requires Shows(rows, groups, order, pageSize)
    ensures HasCells(rows, groups, order, pageSize, GroupPfns, MemRssCell, MemUssCell)
    ensures HasCells(rows, groups, order, pageSize, GroupSwap, SwapRssCell, SwapUssCell)
  {
    forall i | 0 <= i < |rows|
      ensures RowHas(rows[i], groups, order[i], pageSize, GroupPfns, MemRssCell, MemUssCell)
      ensures RowHas(rows[i], groups, order[i], pageSize, GroupSwap, SwapRssCell, SwapUssCell)
    {
      MemoryRow(groups, order[i], pageSize);
      SwapRow(groups, order[i], pageSize);
    }
  }

  /** The RSS column bounds the union, whatever the names. */
  lemma {:induction false} RssColumn<K, X>(
    rows: seq<Row>, groups: map<K, ProcessGroupInfo>, order: seq<K>, pageSize: nat,
    field: ProcessGroupInfo -> set<X>, rss: Row -> nat, uss: Row -> nat)
    requires HasCells(rows, groups, order, pageSize, field, rss, uss)
    ensures |Union(PagesIn(groups, field))| * pageSize <= Column(rows, rss)
  {
    var family := PagesIn(groups, field);
    ColumnSum(rows, rss, family, order, pageSize);
    assert family.Keys == groups.Keys;
    UnionAtMostSum(family, order);
    Monotone(|Union(family)|, SumSizes(family, order), pageSize);
  }

  /** With distinct names the USS column counts the pages of exactly one group. */
  lemma {:induction false} UssColumn<K, X>(
    rows: seq<Row>, groups: map<K, ProcessGroupInfo>, order: seq<K>, pageSize: nat,
    field: ProcessGroupInfo -> set<X>, rss: Row -> nat, uss: Row -> nat)
    requires HasCells(rows, groups, order, pageSize, field, rss, uss) && DistinctNames(groups)
    ensures Column(rows, uss) == |ReferencedOnce(PagesIn(groups, field))| * pageSize
    ensures Column(rows, uss) <= |Union(PagesIn(groups, field))| * pageSize
  {
    var family := PagesIn(groups, field);
    assert family.Keys == groups.Keys == Exclusives(family).Keys;
    forall i | 0 <= i < |rows| ensures uss(rows[i]) == |Exclusives(family)[order[i]]| * pageSize {
      RowIsExclusive(groups, order[i], field);
    }
    ColumnSum(rows, uss, Exclusives(family), order, pageSize);
    UssIdentity(family, order);
    Monotone(SumSizes(Exclusives(family), order), |Union(family)|, pageSize);
  }

  /**
   In a report whose groups have distinct names, the USS columns add up to the pages that exactly one group
   references, and the size of the union lies between the sum of the USS and the sum of the RSS.
   */
  lemma {:induction false} ReportBrackets<K(!new)>(rows: seq<Row>, groups: map<K, ProcessGroupInfo>, pageSize: nat)
    requires IsTable(rows, groups, pageSize) && DistinctNames(groups)
    ensures Column(rows, MemUssCell) == |ReferencedOnce(PagesIn(groups, GroupPfns))| * pageSize
    ensures Column(rows, MemUssCell) <= |Union(PagesIn(groups, GroupPfns))| * pageSize <= Column(rows, MemRssCell)
    ensures Column(rows, SwapUssCell) == |ReferencedOnce(PagesIn(groups, GroupSwap))| * pageSize
    ensures Column(rows, SwapUssCell) <= |Union(PagesIn(groups, GroupSwap))| * pageSize <= Column(rows, SwapRssCell)
  {
    var order: seq<K> :| Shows(rows, groups, order, pageSize);
    TableHasCells(rows, groups, order, pageSize);
    UssColumn(rows, groups, order, pageSize, GroupPfns, MemRssCell, MemUssCell);
    UssColumn(rows, groups, order, pageSize, GroupSwap, SwapRssCell, SwapUssCell);
    RssBound(rows, groups, pageSize);
  }

  /** The RSS half needs no distinct names. */
  lemma {:induction false} RssBound<K(!new)>(rows: seq<Row>, groups: map<K, ProcessGroupInfo>, pageSize: nat)
    requires IsTable(rows, groups, pageSize)
    ensures |Union(PagesIn(groups, GroupPfns))| * pageSize <= Column(rows, MemRssCell)
    ensures |Union(PagesIn(groups, GroupSwap))| * pageSize <= Column(rows, SwapRssCell)
  {
    var order: seq<K> :| Shows(rows, groups, order, pageSize);
    TableHasCells(rows, groups, order, pageSize);
    RssColumn(rows, groups, order, pageSize, GroupPfns, MemRssCell, MemUssCell);
    RssColumn(rows, groups, order, pageSize, GroupSwap, SwapRssCell, SwapUssCell);
  }

  // ----- the other columns

  /** Which group each row is about, and what its cells count. */
  lemma {:induction false} TableTells<K(!new)>(rows: seq<Row>, groups: map<K, ProcessGroupInfo>, pageSize: nat)
    returns (order: seq<K>)
    requires IsTable(rows, groups, pageSize)
    ensures IsOrdering(order, groups.Keys) && |rows| == |order|
    ensures forall i | 0 <= i < |rows| ::
      && order[i] in groups
      && var g := groups[order[i]];
         && rows[i].groupName == g.name && rows[i].procs == |g.processes|
         && rows[i].memRss == |g.pfns| * pageSize && rows[i].memAnon == |g.anonPfns| * pageSize
         && rows[i].swapRss == |g.swapPages| * pageSize && rows[i].swapAnon == |g.anonSwapPages| * pageSize
  {
    order :| Shows(rows, groups, order, pageSize);
  }

  function ProcsCell(r: Row): nat { r.procs }

  lemma {:induction false} ProcsColumn<K>(rows: seq<Row>, groups: map<K, ProcessGroupInfo>, order: seq<K>)
    requires |rows| == |order| && forall k <- order :: k in groups
    requires forall i | 0 <= i < |rows| :: rows[i].procs == |groups[order[i]].processes|
    ensures Column(rows, ProcsCell) == |Flatten(groups, order)|
  {
    if rows != [] {
      var last := |rows| - 1;
      ProcsColumn(rows[..last], groups, order[..last]);
    }
  }

  lemma {:induction false} ProcsOfTable<K(!new)>(rows: seq<Row>, groups: map<K, ProcessGroupInfo>, pageSize: nat)
    returns (order: seq<K>)
    requires IsTable(rows, groups, pageSize)
    ensures IsOrdering(order, groups.Keys) && forall k <- order :: k in groups
    ensures Column(rows, ProcsCell) == |Flatten(groups, order)|
  {
    order := TableTells(rows, groups, pageSize);
    ProcsColumn(rows, groups, order);
  }

  lemma {:induction false} SameLength<T>(a: seq<T>, b: seq<T>)
    requires multiset(a) == multiset(b)
    ensures |a| == |b|
  {
    assert |multiset(a)| == |multiset(b)|;
  }

  /** Every process is counted in one row. */
  lemma {:induction false} ProcsAddUp<K(!new)>(
    rows: seq<Row>, keys: set<K>, processes: seq<ProcessInfo>, key: ProcessInfo -> K, title: K -> string, pageSize: nat)
    requires KeysOf(processes, key) <= keys
    requires IsTable(rows, GroupsBy(keys, processes, key, title), pageSize)
    ensures Column(rows, ProcsCell) == |processes|
  {
    var groups := GroupsBy(keys, processes, key, title);
    var order := ProcsOfTable(rows, groups, pageSize);
    GroupingConserves(keys, processes, key, title, order);
    SameLength(Flatten(groups, order), processes);
  }

  /** The anonymous pages of a row are some of its pages. */
  lemma {:induction false} AnonAtMostRss<K(!new)>(
    rows: seq<Row>, keys: set<K>, processes: seq<ProcessInfo>, key: ProcessInfo -> K, title: K -> string, pageSize: nat)
    requires forall p <- processes :: p.anonPfns <= p.pfns && p.anonSwapPages <= p.swapPages
    requires IsTable(rows, GroupsBy(keys, processes, key, title), pageSize)
    ensures forall r <- rows :: r.memAnon <= r.memRss && r.swapAnon <= r.swapRss
  {
    var groups := GroupsBy(keys, processes, key, title);
    var order := TableTells(rows, groups, pageSize);
    forall i | 0 <= i < |rows| ensures rows[i].memAnon <= rows[i].memRss && rows[i].swapAnon <= rows[i].swapRss {
      var taken := Class(processes, key, order[i]);
      forall p <- taken ensures p in processes {
        SelectMember(processes, HasKey(key, order[i]), p);
      }
      AnonInGroup(taken, title(order[i]));
      var g := groups[order[i]];
      SubsetSize(g.anonPfns, g.pfns);
      SubsetSize(g.anonSwapPages, g.swapPages);
      Monotone(|g.anonPfns|, |g.pfns|, pageSize);
      Monotone(|g.anonSwapPages|, |g.swapPages|, pageSize);
    }
  }

  lemma {:induction false} PartOfAll<X>(
    processes: seq<ProcessInfo>, part: ProcessInfo -> set<X>, whole: ProcessInfo -> set<X>)
    requires forall p <- processes :: part(p) <= whole(p)
    ensures AllOf(processes, part) <= AllOf(processes, whole)
  {
  }

  lemma {:induction false} AnonInGroup(processes: seq<ProcessInfo>, name: string)
    requires forall p <- processes :: p.anonPfns <= p.pfns && p.anonSwapPages <= p.swapPages
    ensures var g := GroupOf(processes, name); g.anonPfns <= g.pfns && g.anonSwapPages <= g.swapPages
  {
    PartOfAll(processes, AnonPfnsOf, PfnsOf);
    PartOfAll(processes, AnonSwapPagesOf, SwapPagesOf);
  }

  // ----- groups told apart by their names

  /** The USS cells of every row count what only its group has. */
  ghost predicate UssIsExact<K>(groups: map<K, ProcessGroupInfo>, pageSize: nat) {
    forall k <- groups.Keys ::
      && RowOf(groups, k, pageSize).memUss == |Exclusive(PagesIn(groups, GroupPfns), k)| * pageSize
      && RowOf(groups, k, pageSize).swapUss == |Exclusive(PagesIn(groups, GroupSwap), k)| * pageSize
  }

  lemma {:induction false} DistinctNamesExact<K>(groups: map<K, ProcessGroupInfo>, pageSize: nat)
    requires DistinctNames(groups)
    ensures UssIsExact(groups, pageSize)
  {
    forall k <- groups.Keys
      ensures RowOf(groups, k, pageSize).memUss == |Exclusive(PagesIn(groups, GroupPfns), k)| * pageSize
      ensures RowOf(groups, k, pageSize).swapUss == |Exclusive(PagesIn(groups, GroupSwap), k)| * pageSize
    {
      RowIsExclusive(groups, k, GroupPfns);
      RowIsExclusive(groups, k, GroupSwap);
    }
  }

  /** A process with each of these keys can have frame 1. */
  ghost predicate Attainable<K(!new)>(key: ProcessInfo -> K, keys: set<K>) {
    forall k <- keys :: exists p: ProcessInfo :: key(p) == k && 1 in p.pfns
  }

  ghost predicate TitlesDiffer<K(!new)>(keys: set<K>, title: K -> string) {
    forall j, k | j in keys && k in keys && j != k :: title(j) != title(k)
  }

  /** Two groups of one name that share a frame: each row keeps the frame, which is exclusive to none. */
  lemma {:induction false} SharedNameKeeps<K>(groups: map<K, ProcessGroupInfo>, j: K, k: K, x: Pfn)
    requires j in groups && k in groups && j != k && groups.Keys == {j, k} && groups[j].name == groups[k].name
    requires x in groups[j].pfns && x in groups[k].pfns
    ensures Others(groups, j, GroupPfns) == {} && x !in Exclusive(PagesIn(groups, GroupPfns), j)
  {
    assert x in PagesIn(groups, GroupPfns)[k];
  }

  lemma {:induction false} SharedNameInexact<K>(groups: map<K, ProcessGroupInfo>, j: K, k: K, x: Pfn, pageSize: nat)
    requires j in groups && k in groups && j != k && groups.Keys == {j, k} && groups[j].name == groups[k].name
    requires x in groups[j].pfns && x in groups[k].pfns && pageSize > 0
    ensures !UssIsExact(groups, pageSize)
  {
    SharedNameKeeps(groups, j, k, x);
    var exclusive, shown := Exclusive(PagesIn(groups, GroupPfns), j), groups[j].pfns;
    MemoryRow(groups, j, pageSize);
    assert exclusive <= shown && exclusive != shown;
    assert shown - Others(groups, j, GroupPfns) == shown;
    SubsetSize(exclusive, shown);
    StrictlyMore(|exclusive|, |shown|, pageSize);
  }

  /** When that frame is all they have, both rows show one page of USS, and no page is of one group only. */
  lemma {:induction false} SharedFrameRow<K>(groups: map<K, ProcessGroupInfo>, j: K, k: K, x: Pfn, pageSize: nat)
    requires j in groups && k in groups && j != k && groups.Keys == {j, k} && groups[j].name == groups[k].name
    requires groups[j].pfns == {x} == groups[k].pfns
    ensures RowOf(groups, j, pageSize).memUss == pageSize
    ensures ReferencedOnce(PagesIn(groups, GroupPfns)) == {}
  {
    SharedNameKeeps(groups, j, k, x);
    MemoryRow(groups, j, pageSize);
    assert {x} - Others(groups, j, GroupPfns) == {x};
    assert x in PagesIn(groups, GroupPfns)[j] && x in PagesIn(groups, GroupPfns)[k];
  }

  lemma {:induction false} PairOfGroups<K>(
    p: ProcessInfo, q: ProcessInfo, key: ProcessInfo -> K, title: K -> string, x: Pfn)
    requires key(p) != key(q) && x in p.pfns && x in q.pfns
    ensures KeysOf([p, q], key) == {key(p), key(q)}
    ensures var groups := GroupsBy(KeysOf([p, q], key), [p, q], key, title);
            && groups.Keys == {key(p), key(q)} && x in groups[key(p)].pfns && x in groups[key(q)].pfns
            && groups[key(p)].name == title(key(p)) && groups[key(q)].name == title(key(q))
  {
    assert p in [p, q] && q in [p, q];
    GroupHas([p, q], p, key, title, x);
    GroupHas([p, q], q, key, title, x);
  }

  lemma {:induction false} GroupHas<K>(
    processes: seq<ProcessInfo>, p: ProcessInfo, key: ProcessInfo -> K, title: K -> string, x: Pfn)
    requires p in processes && x in p.pfns
    ensures var groups := GroupsBy(KeysOf(processes, key), processes, key, title);
            key(p) in groups && x in groups[key(p)].pfns
  {
    SelectMember(processes, HasKey(key, key(p)), p);
    assert x in PfnsOf(p);
  }

  lemma {:induction false} StrictlyMore(a: nat, b: nat, c: nat)
    requires a < b && c > 0
    ensures a * c < b * c
  {
    Distribute(a, b - a, c);
  }

  ghost predicate ReportIsExact<K>(
    processes: seq<ProcessInfo>, key: ProcessInfo -> K, title: K -> string, pageSize: nat)
  {
    UssIsExact(GroupsBy(KeysOf(processes, key), processes, key, title), pageSize)
  }

  lemma {:induction false} DifferentTitlesExact<K(!new)>(
    processes: seq<ProcessInfo>, keys: set<K>, key: ProcessInfo -> K, title: K -> string, pageSize: nat)
    requires TitlesDiffer(keys, title) && KeysOf(processes, key) <= keys
    ensures ReportIsExact(processes, key, title, pageSize)
  {
    DistinctNamesExact(GroupsBy(KeysOf(processes, key), processes, key, title), pageSize);
  }

  lemma {:induction false} SameTitleInexact<K>(
    p: ProcessInfo, q: ProcessInfo, key: ProcessInfo -> K, title: K -> string, x: Pfn, pageSize: nat)
    requires pageSize > 0 && x in p.pfns && x in q.pfns && key(p) != key(q) && title(key(p)) == title(key(q))
    ensures !ReportIsExact([p, q], key, title, pageSize)
  {
    PairOfGroups(p, q, key, title, x);
    SharedNameInexact(GroupsBy(KeysOf([p, q], key), [p, q], key, title), key(p), key(q), x, pageSize);
  }

  ghost predicate KeysAmong<K>(processes: seq<ProcessInfo>, key: ProcessInfo -> K, keys: set<K>) {
    KeysOf(processes, key) <= keys
  }

  lemma {:induction false} SharingPair<K(!new)>(keys: set<K>, key: ProcessInfo -> K, title: K -> string)
    returns (p: ProcessInfo, q: ProcessInfo)
    requires Attainable(key, keys) && !TitlesDiffer(keys, title)
    ensures 1 in p.pfns && 1 in q.pfns && key(p) != key(q) && title(key(p)) == title(key(q))
    ensures KeysAmong([p, q], key, keys)
  {
    var j, k :| j in keys && k in keys && j != k && title(j) == title(k);
    p :| key(p) == j && 1 in p.pfns;
    q :| key(q) == k && 1 in q.pfns;
    PairOfGroups(p, q, key, title, 1);
  }

  /**
   The USS of a report by key is exact for every list of processes with keys among `keys` exactly when different
   keys have different names.
   */
  lemma {:induction false} UssExactIffNamesDistinct<K(!new)>(
    keys: set<K>, key: ProcessInfo -> K, title: K -> string, pageSize: nat)
    requires pageSize > 0 && Attainable(key, keys)
    ensures TitlesDiffer(keys, title)
       <==> forall processes | KeysAmong(processes, key, keys) :: ReportIsExact(processes, key, title, pageSize)
  {
    if TitlesDiffer(keys, title) {
      forall processes | KeysAmong(processes, key, keys) ensures ReportIsExact(processes, key, title, pageSize) {
        DifferentTitlesExact(processes, keys, key, title, pageSize);
      }
    } else {
      var p, q := SharingPair(keys, key, title);
      SameTitleInexact(p, q, key, title, 1, pageSize);
    }
  }

  // ----- a coarser key

  function Image<K, B(==)>(keys: set<K>, h: K -> B): set<B> {
    set k | k in keys :: h(k)
  }

  function Then<K, B>(key: ProcessInfo -> K, h: K -> B): ProcessInfo -> B {
    (p: ProcessInfo) => h(key(p))
  }

  /** The cells of the rows whose key goes to block `b`, added up. */
  function BlockSum<K, B(==)>(rows: seq<Row>, order: seq<K>, h: K -> B, b: B, cell: Row -> nat): nat
    requires |rows| == |order|
  {
    if rows == [] then 0
    else
      var last := |rows| - 1;
      BlockSum(rows[..last], order[..last], h, b, cell) + if h(order[last]) == b then cell(rows[last]) else 0
  }

  function InBlock<K, B(==)>(h: K -> B, b: B): K -> bool {
    k => h(k) == b
  }

  lemma {:induction false} BlockOrdering<K(!new), B, X>(family: map<K, set<X>>, order: seq<K>, h: K -> B, b: B)
    requires IsOrdering(order, family.Keys)
    ensures var block := Select(order, InBlock(h, b));
            && IsOrdering(block, Part(family, h, b).Keys)
            && forall k <- block :: k in Part(family, h, b)
  {
    SelectDistinct(order, InBlock(h, b));
    var block := Select(order, InBlock(h, b));
    var members := set k | k in block;
    forall k: K ensures k in members <==> k in Part(family, h, b).Keys {
      SelectMember(order, InBlock(h, b), k);
      assert k in (set j | j in order) <==> k in family.Keys;
    }
    assert members == Part(family, h, b).Keys;
  }

  lemma {:induction false} BlockSizes<K, B, X>(
    rows: seq<Row>, order: seq<K>, family: map<K, set<X>>, h: K -> B, b: B, cell: Row -> nat, pageSize: nat)
    requires |rows| == |order| && forall k <- order :: k in family
    requires forall i | 0 <= i < |rows| :: cell(rows[i]) == |family[order[i]]| * pageSize
    ensures forall k <- Select(order, InBlock(h, b)) :: k in family
    ensures BlockSum(rows, order, h, b, cell) == SumSizes(family, Select(order, InBlock(h, b))) * pageSize
  {
    forall k <- Select(order, InBlock(h, b)) ensures k in family {
      SelectMember(order, InBlock(h, b), k);
    }
    if rows != [] {
      var last := |rows| - 1;
      var front := Select(order[..last], InBlock(h, b));
      BlockSizes(rows[..last], order[..last], family, h, b, cell, pageSize);
      if h(order[last]) == b {
        SumPush(family, front, order[last]);
        Distribute(SumSizes(family, front), |family[order[last]]|, pageSize);
      } else {
        assert Select(order, InBlock(h, b)) == front;
      }
    }
  }

  /** The pages of the class of each key. */
  function ClassPages<K(==), X(==)>(
    keys: set<K>, processes: seq<ProcessInfo>, key: ProcessInfo -> K, field: ProcessInfo -> set<X>): map<K, set<X>>
  {
    map k | k in keys :: AllOf(Class(processes, key, k), field)
  }

  /** Together the classes have what the processes have. */
  lemma {:induction false} ClassesCover<K, X>(
    keys: set<K>, processes: seq<ProcessInfo>, key: ProcessInfo -> K, field: ProcessInfo -> set<X>)
    requires KeysOf(processes, key) <= keys
    ensures Union(ClassPages(keys, processes, key, field)) == AllOf(processes, field)
  {
    var family := ClassPages(keys, processes, key, field);
    forall k, p ensures p in Class(processes, key, k) <==> p in processes && key(p) == k {
      SelectMember(processes, HasKey(key, k), p);
    }
    forall x | x in AllOf(processes, field) ensures x in Union(family) {
      var p :| p in processes && x in field(p);
      assert key(p) in KeysOf(processes, key);
      assert p in Class(processes, key, key(p));
      assert x in family[key(p)];
    }
    forall x | x in Union(family) ensures x in AllOf(processes, field) {
      var k :| k in family && x in family[k];
    }
  }

  lemma {:induction false} CoarserPage<K, B, X>(
    keys: set<K>, processes: seq<ProcessInfo>, key: ProcessInfo -> K, h: K -> B, field: ProcessInfo -> set<X>,
    b: B, x: X)
    requires KeysOf(processes, key) <= keys
    ensures x in AllOf(Class(processes, Then(key, h), b), field)
       <==> x in Union(Part(ClassPages(keys, processes, key, field), h, b))
  {
    var part := Part(ClassPages(keys, processes, key, field), h, b);
    if p :| p in Class(processes, Then(key, h), b) && x in field(p) {
      SelectMember(processes, HasKey(Then(key, h), b), p);
      SelectMember(processes, HasKey(key, key(p)), p);
      assert key(p) in KeysOf(processes, key);
      assert x in part[key(p)];
    }
    if k :| k in part && x in part[k] {
      var p :| p in Class(processes, key, k) && x in field(p);
      SelectMember(processes, HasKey(key, k), p);
      SelectMember(processes, HasKey(Then(key, h), b), p);
    }
  }

  lemma {:induction false} CoarserClass<K, B, X(!new)>(
    keys: set<K>, processes: seq<ProcessInfo>, key: ProcessInfo -> K, h: K -> B, field: ProcessInfo -> set<X>, b: B)
    requires KeysOf(processes, key) <= keys
    ensures AllOf(Class(processes, Then(key, h), b), field)
         == Union(Part(ClassPages(keys, processes, key, field), h, b))
  {
    var merged := Union(Part(ClassPages(keys, processes, key, field), h, b));
    forall x: X ensures x in AllOf(Class(processes, Then(key, h), b), field) <==> x in merged {
      CoarserPage(keys, processes, key, h, field, b, x);
    }
    assert AllOf(Class(processes, Then(key, h), b), field) == merged;
  }

  /** The classes of the coarser key have the pages of the classes they merge. */
  lemma {:induction false} CoarserPages<K, B, X(!new)>(
    keys: set<K>, processes: seq<ProcessInfo>, key: ProcessInfo -> K, h: K -> B, field: ProcessInfo -> set<X>)
    requires KeysOf(processes, key) <= keys
    ensures ClassPages(Image(keys, h), processes, Then(key, h), field)
         == Merged(ClassPages(keys, processes, key, field), h)
  {
    var family := ClassPages(keys, processes, key, field);
    var coarse := ClassPages(Image(keys, h), processes, Then(key, h), field);
    assert family.Keys == keys;
    assert coarse.Keys == Merged(family, h).Keys;
    forall b | b in coarse ensures coarse[b] == Merged(family, h)[b] {
      CoarserClass(keys, processes, key, h, field, b);
    }
  }

  /** What a report shows for one kind of page, against what the report by the coarser key shows. */
  lemma {:induction false} CoarserColumn<K(!new), B, X>(
    rows: seq<Row>, fine: map<K, ProcessGroupInfo>, coarse: map<B, ProcessGroupInfo>, order: seq<K>, pageSize: nat,
    h: K -> B, b: B, field: ProcessGroupInfo -> set<X>, rss: Row -> nat, uss: Row -> nat)
    requires HasCells(rows, fine, order, pageSize, field, rss, uss)
    requires PagesIn(coarse, field) == Merged(PagesIn(fine, field), h) && b in coarse
    ensures |field(coarse[b])| * pageSize <= BlockSum(rows, order, h, b, rss)
    ensures DistinctNames(fine) ==>
      BlockSum(rows, order, h, b, uss) <= |field(coarse[b]) - Others(coarse, b, field)| * pageSize
  {
    var family, block := PagesIn(fine, field), Select(order, InBlock(h, b));
    assert family.Keys == fine.Keys == Exclusives(family).Keys && PagesIn(coarse, field)[b] == field(coarse[b]);
    BlockOrdering(family, order, h, b);
    MergeBounds(family, h, b, block);
    BlockSizes(rows, order, family, h, b, rss, pageSize);
    Monotone(|field(coarse[b])|, SumSizes(family, block), pageSize);
    if DistinctNames(fine) {
      forall i | 0 <= i < |rows| ensures uss(rows[i]) == |Exclusives(family)[order[i]]| * pageSize {
        RowIsExclusive(fine, order[i], field);
      }
      BlockSizes(rows, order, Exclusives(family), h, b, uss, pageSize);
      RowKeepsExclusive(coarse, b, field);
      SubsetSize(Exclusive(PagesIn(coarse, field), b), field(coarse[b]) - Others(coarse, b, field));
      Monotone(SumSizes(Exclusives(family), block), |field(coarse[b]) - Others(coarse, b, field)|, pageSize);
    }
  }

  /** The row has at most the RSS that the rows of the block have together. */
  ghost predicate RssAtMost<K, B>(row: Row, rows: seq<Row>, order: seq<K>, h: K -> B, b: B) {
    && |rows| == |order|
    && row.memRss <= BlockSum(rows, order, h, b, MemRssCell)
    && row.swapRss <= BlockSum(rows, order, h, b, SwapRssCell)
  }

  /** The row has at least the USS that the rows of the block have together. */
  ghost predicate UssAtLeast<K, B>(row: Row, rows: seq<Row>, order: seq<K>, h: K -> B, b: B) {
    && |rows| == |order|
    && BlockSum(rows, order, h, b, MemUssCell) <= row.memUss
    && BlockSum(rows, order, h, b, SwapUssCell) <= row.swapUss
  }

  /**
   Grouping by a coarser key: a merged group has at most the RSS of the groups it merges and, if these had distinct
   names, at least their USS; the pages of all groups together are the same.
   */
  lemma {:induction false} CoarserReport<K(!new), B>(
    rows: seq<Row>, keys: set<K>, processes: seq<ProcessInfo>, key: ProcessInfo -> K, title: K -> string,
    order: seq<K>, h: K -> B, name: B -> string, b: B, pageSize: nat)
    requires KeysOf(processes, key) <= keys && b in Image(keys, h)
    requires Shows(rows, GroupsBy(keys, processes, key, title), order, pageSize)
    ensures var fine := GroupsBy(keys, processes, key, title);
            var coarse := GroupsBy(Image(keys, h), processes, Then(key, h), name);
            && RssAtMost(RowOf(coarse, b, pageSize), rows, order, h, b)
            && (DistinctNames(fine) ==> UssAtLeast(RowOf(coarse, b, pageSize), rows, order, h, b))
            && Union(PagesIn(coarse, GroupPfns)) == Union(PagesIn(fine, GroupPfns))
            && Union(PagesIn(coarse, GroupSwap)) == Union(PagesIn(fine, GroupSwap))
  {
    var fine := GroupsBy(keys, processes, key, title);
    var coarse := GroupsBy(Image(keys, h), processes, Then(key, h), name);
    CoarserMemory(keys, processes, key, title, h, name);
    CoarserSwap(keys, processes, key, title, h, name);
    TableHasCells(rows, fine, order, pageSize);
    CoarserColumn(rows, fine, coarse, order, pageSize, h, b, GroupPfns, MemRssCell, MemUssCell);
    CoarserColumn(rows, fine, coarse, order, pageSize, h, b, GroupSwap, SwapRssCell, SwapUssCell);
    MergeKeepsUnion(PagesIn(fine, GroupPfns), h);
    MergeKeepsUnion(PagesIn(fine, GroupSwap), h);
  }

  lemma {:induction false} CoarserMemory<K, B>(
    keys: set<K>, processes: seq<ProcessInfo>, key: ProcessInfo -> K, title: K -> string, h: K -> B, name: B -> string)
    requires KeysOf(processes, key) <= keys
    ensures PagesIn(GroupsBy(Image(keys, h), processes, Then(key, h), name), GroupPfns)
         == Merged(PagesIn(GroupsBy(keys, processes, key, title), GroupPfns), h)
  {
    CoarserPages(keys, processes, key, h, PfnsOf);
    assert PagesIn(GroupsBy(keys, processes, key, title), GroupPfns) == ClassPages(keys, processes, key, PfnsOf);
    assert PagesIn(GroupsBy(Image(keys, h), processes, Then(key, h), name), GroupPfns)
        == ClassPages(Image(keys, h), processes, Then(key, h), PfnsOf);
  }

  lemma {:induction false} CoarserSwap<K, B>(
    keys: set<K>, processes: seq<ProcessInfo>, key: ProcessInfo -> K, title: K -> string, h: K -> B, name: B -> string)
    requires KeysOf(processes, key) <= keys
    ensures PagesIn(GroupsBy(Image(keys, h), processes, Then(key, h), name), GroupSwap)
         == Merged(PagesIn(GroupsBy(keys, processes, key, title), GroupSwap), h)
  {
    CoarserPages(keys, processes, key, h, SwapPagesOf);
    assert PagesIn(GroupsBy(keys, processes, key, title), GroupSwap) == ClassPages(keys, processes, key, SwapPagesOf);
    assert PagesIn(GroupsBy(Image(keys, h), processes, Then(key, h), name), GroupSwap)
        == ClassPages(Image(keys, h), processes, Then(key, h), SwapPagesOf);
  }

  // ----- reports do not depend on the order of the processes

  lemma {:induction false} OthersPermuted<K, X>(
    a: map<K, ProcessGroupInfo>, b: map<K, ProcessGroupInfo>, k: K, field: ProcessGroupInfo -> set<X>)
    requires a.Keys == b.Keys && k in a
    requires forall j <- a.Keys :: a[j].name == b[j].name && field(a[j]) == field(b[j])
    ensures Others(a, k, field) == Others(b, k, field)
  {
  }

  /** Grouping a permutation of the processes shows the same rows. */
  lemma {:induction false} RowsPermuted<K(!new)>(
    rows: seq<Row>, keys: set<K>, a: seq<ProcessInfo>, b: seq<ProcessInfo>,
    key: ProcessInfo -> K, title: K -> string, pageSize: nat)
    requires multiset(a) == multiset(b) && IsTable(rows, GroupsBy(keys, a, key, title), pageSize)
    ensures IsTable(rows, GroupsBy(keys, b, key, title), pageSize)
  {
    var g, h := GroupsBy(keys, a, key, title), GroupsBy(keys, b, key, title);
    var order: seq<K> :| Shows(rows, g, order, pageSize);
    forall k <- keys ensures g[k].(processes := h[k].processes) == h[k] && |g[k].processes| == |h[k].processes| {
      GroupingPermuted(keys, a, b, key, title, k);
    }
    forall i | 0 <= i < |order| ensures order[i] in h && rows[i] == RowOf(h, order[i], pageSize) {
      OthersPermuted(g, h, order[i], GroupPfns);
      OthersPermuted(g, h, order[i], GroupSwap);
    }
    assert Shows(rows, h, order, pageSize);
  }

  // ----- reports do not depend on the order of the groups

  function RowsOf<K(==)>(groups: map<K, ProcessGroupInfo>, pageSize: nat): map<K, Row> {
    map k | k in groups :: RowOf(groups, k, pageSize)
  }

  lemma {:induction false} ShowsListed<K>(
    rows: seq<Row>, groups: map<K, ProcessGroupInfo>, order: seq<K>, pageSize: nat)
    requires Shows(rows, groups, order, pageSize)
    ensures (forall k <- order :: k in RowsOf(groups, pageSize)) && rows == Listed(RowsOf(groups, pageSize), order)
  {
    ListedIs(RowsOf(groups, pageSize), order, rows);
  }

  /** Two tables of the same groups have the same rows: the order of iteration does not matter. */
  lemma {:induction false} TablesAgree<K(!new)>(
    rows: seq<Row>, others: seq<Row>, groups: map<K, ProcessGroupInfo>, pageSize: nat)
    requires IsTable(rows, groups, pageSize) && IsTable(others, groups, pageSize)
    ensures multiset(rows) == multiset(others)
  {
    var a: seq<K> :| Shows(rows, groups, a, pageSize);
    var b: seq<K> :| Shows(others, groups, b, pageSize);
    OrderingsAgree(a, b, groups.Keys);
    ShowsListed(rows, groups, a, pageSize);
    ShowsListed(others, groups, b, pageSize);
    ListedPermuted(RowsOf(groups, pageSize), a, b);
  }
}
