/** The successive reports of `memstats groups`, and the single total of `memstats single`. */
module Memstats {
  import opened Wrappers
  import opened Decimal
  import opened Filters
  import opened Printing
  import opened Processes
  import opened Evaluation
  import opened Sequences
  import opened ProcessGroups
  import opened Splitters
  import opened Reports

  // ----- what a custom split keeps

  /**
   Collecting the groups of a custom split gives exactly the processes whose group is not replaced by a later one of
   the same name, in whatever order the groups are collected.
   */
  lemma {:induction false} CustomSplitHoldsKept(
    names: seq<string>, filters: seq<Filter>, processes: seq<ProcessInfo>, links: set<Edge>, left: seq<ProcessInfo>)
    requires |names| == |filters|
    requires Collected(left, CustomGroups(names, filters, processes, links))
    ensures multiset(left) == multiset(Kept(names, filters, processes, links))
  {
    var order: seq<string> :| CollectedBy(left, CustomGroups(names, filters, processes, links), order);
    GroupingConserves(CustomNames(names), Kept(names, filters, processes, links),
                      GroupName(names, filters, links), Itself, order);
  }

  /** A custom split loses nothing exactly when no process falls in a group whose name comes back later. */
  lemma {:induction false} CustomSplitConservesIff(
    names: seq<string>, filters: seq<Filter>, processes: seq<ProcessInfo>, links: set<Edge>, left: seq<ProcessInfo>)
    requires |names| == |filters|
    requires Collected(left, CustomGroups(names, filters, processes, links))
    ensures multiset(left) == multiset(processes) <==> forall p <- processes :: IsKept(names, filters, links)(p)
  {
    CustomSplitHoldsKept(names, filters, processes, links, left);
    SelectAllIff(processes, IsKept(names, filters, links));
  }

  lemma {:induction false} DistinctNamesKeepAll(
    names: seq<string>, filters: seq<Filter>, processes: seq<ProcessInfo>, links: set<Edge>)
    requires |names| == |filters| && Distinct(names)
    ensures Kept(names, filters, processes, links) == processes
  {
    forall k | 0 <= k < |names| ensures IsLast(names, k) {
      forall j | k < j < |names| ensures names[j] != names[k] {}
    }
    SelectSame(processes, IsKept(names, filters, links), _ => true);
    SelectEverything(processes);
  }

  /**
   With distinct names, group `k` holds, in their order, the processes that filter `k` accepts and no filter before
   it does; "Other" holds those that no filter accepts.
   */
  lemma {:induction false} FirstMatchPartition(
    names: seq<string>, filters: seq<Filter>, processes: seq<ProcessInfo>, links: set<Edge>, k: nat)
    requires NamesMatch(names, filters) && Distinct(names) && k <= |names|
    ensures var n := if k < |names| then names[k] else "Other";
            var groups := CustomGroups(names, filters, processes, links);
            && n in groups
            && groups[n].processes == Select(processes, (p: ProcessInfo) =>
                 (k < |filters| ==> Eval(filters[k], p.process, links))
                 && forall j | 0 <= j < k :: !Eval(filters[j], p.process, links))
  {
    OtherIsNoName(names, filters);
    if k < |names| {
      forall j | k < j < |names| ensures names[j] != names[k] {}
    }
    CustomAt(names, filters, processes, links, k);
    SelectSame(processes, At(filters, links, k), (p: ProcessInfo) =>
      (k < |filters| ==> Eval(filters[k], p.process, links))
      && forall j | 0 <= j < k :: !Eval(filters[j], p.process, links));
  }

  /** The group of a name given twice is empty: the first filter took its processes, the second replaced its group. */
  lemma {:induction false} RepeatedNameIsEmpty(
    names: seq<string>, filters: seq<Filter>, processes: seq<ProcessInfo>, links: set<Edge>, i: nat, j: nat)
    requires NamesMatch(names, filters) && i < j < |names| && names[i] == names[j]
    ensures names[i] in CustomGroups(names, filters, processes, links)
    ensures CustomGroups(names, filters, processes, links)[names[i]].processes == []
  {
    OtherIsNoName(names, filters);
    var k := LastOccurrence(names, names[i]);
    NameMatches(names, filters, i);
    NameMatches(names, filters, k);
    CustomAt(names, filters, processes, links, k);
    SelectSame(processes, At(filters, links, k), _ => false);
    SelectNothing(processes);
  }

  /** Any filter can be given twice. */
  lemma {:induction false} RepeatedFilterAccepted(f: Filter, separator: char)
    requires WellFormed(f) && IsAscii(Print(f) + [separator])
    ensures SplitterItems(Print(f) + [separator] + Print(f)) == Ok(Items([f, f], [Print(f), Print(f)]))
  {
    var t := Print(f);
    var input := t + [separator] + t;
    RoundTrip(f, "");
    assert t + "" == t;
    AloneAccounted(t, f);
    TwiceAccounted(t, f, separator);
    assert forall i | 0 <= i < |t| :: (t + [separator])[i] == t[i];
    InputAccounted(input, Items([f, f], [t, t]));
  }

  lemma {:induction false} AloneAccounted(t: string, f: Filter)
    requires IsTextOf(t, f)
    ensures NamesMatch([t], [f]) && Accounts(t, [t])
  {
    assert [t][1..] == [] && [f][1..] == [];
  }

  lemma {:induction false} TwiceAccounted(t: string, f: Filter, separator: char)
    requires IsTextOf(t, f) && NamesMatch([t], [f]) && Accounts(t, [t])
    ensures NamesMatch([t, t], [f, f]) && Accounts(t + [separator] + t, [t, t])
  {
    assert [t, t][1..] == [t] && [f, f][1..] == [f];
    assert (t + [separator] + t)[|t| + 1..] == t;
    assert t <= t + [separator] + t;
  }

  lemma {:induction false} RepeatedFilterKeepsNothing(name: string, processes: seq<ProcessInfo>, links: set<Edge>)
    ensures Kept([name, name], [True, True], processes, links) == []
  {
    SelectSame(processes, IsKept([name, name], [True, True], links), _ => false);
    SelectNothing(processes);
  }

  /** With `true()` twice the split loses every process, whatever the processes. */
  lemma {:induction false} RepeatedFilterLosesAll(
    name: string, processes: seq<ProcessInfo>, links: set<Edge>, left: seq<ProcessInfo>)
    requires Collected(left, CustomGroups([name, name], [True, True], processes, links))
    ensures left == []
  {
    RepeatedFilterKeepsNothing(name, processes, links);
    CustomSplitHoldsKept([name, name], [True, True], processes, links, left);
    assert |multiset(left)| == 0;
  }

  lemma {:induction false} SelectNothing<T>(s: seq<T>)
    ensures Select(s, _ => false) == []
  {
    if s != [] {
      SelectNothing(s[..|s| - 1]);
    }
  }

  // ----- the sequence of reports

  datatype Split = ByUid | ByEnv(variable: string) | ByFilter(input: string)

  /** What a run depends on besides the processes. */
  datatype Setting = Setting(
    links: set<Edge>, username: u32 -> string, shown: Option<string> -> string, pageSize: nat)

  predicate Accepted(split: Split) {
    split.ByFilter? ==> SplitterItems(split.input).Ok?
  }

  /** The processes that are in some group after the split. */
  ghost function Survivors(split: Split, processes: seq<ProcessInfo>, links: set<Edge>): seq<ProcessInfo> {
    match split
    case ByFilter(input) =>
      (match SplitterItems(input)
       case Ok(items) => Kept(items.texts, items.filters, processes, links)
       case Err(_) => processes)
    case _ => processes
  }

  /** `rows` is the table that `split` shows for `processes`. */
  ghost predicate IsReport(split: Split, rows: seq<Row>, processes: seq<ProcessInfo>, s: Setting) {
    match split
    case ByUid => IsTable(rows, GroupsBy(KeysOf(processes, UidOf), processes, UidOf, s.username), s.pageSize)
    case ByEnv(variable) =>
      var key := EnvValue(variable);
      IsTable(rows, GroupsBy(KeysOf(processes, key), processes, key, s.shown), s.pageSize)
    case ByFilter(input) =>
      && SplitterItems(input).Ok?
      && var items := SplitterItems(input).value;
         IsTable(rows, CustomGroups(items.texts, items.filters, processes, s.links), s.pageSize)
  }

  /** A report by uid has one group for each uid: the processes of this user, in their order. */
  lemma {:induction false} UidReportTells(rows: seq<Row>, processes: seq<ProcessInfo>, s: Setting)
    returns (groups: map<u32, ProcessGroupInfo>)
    requires IsReport(ByUid, rows, processes, s)
    ensures IsTable(rows, groups, s.pageSize)
    ensures forall uid: u32 :: uid in groups <==> exists p <- processes :: p.uid == uid
    ensures forall uid: u32 | uid in groups ::
      && groups[uid].name == s.username(uid)
      && groups[uid].processes == Select(processes, (p: ProcessInfo) => p.uid == uid)
  {
    groups := GroupsBy(KeysOf(processes, UidOf), processes, UidOf, s.username);
    forall uid: u32 | uid in groups
      ensures groups[uid].processes == Select(processes, (p: ProcessInfo) => p.uid == uid)
    {
      SelectSame(processes, HasKey(UidOf, uid), (p: ProcessInfo) => p.uid == uid);
    }
  }

  /** A report by variable has one group for each value, and one for the processes that lack it. */
  lemma {:induction false} EnvReportTells(variable: string, rows: seq<Row>, processes: seq<ProcessInfo>, s: Setting)
    returns (groups: map<Option<string>, ProcessGroupInfo>)
    requires IsReport(ByEnv(variable), rows, processes, s)
    ensures IsTable(rows, groups, s.pageSize)
    ensures forall value :: value in groups <==> exists p <- processes :: HasValue(variable, value)(p)
    ensures forall value | value in groups ::
      groups[value].name == s.shown(value) && groups[value].processes == Select(processes, HasValue(variable, value))
  {
    groups := EnvGroups(variable, processes, s.shown);
  }

  lemma {:induction false} EnvGroups(variable: string, processes: seq<ProcessInfo>, shown: Option<string> -> string)
    returns (groups: map<Option<string>, ProcessGroupInfo>)
    ensures var key := EnvValue(variable); groups == GroupsBy(KeysOf(processes, key), processes, key, shown)
    ensures forall value :: value in groups <==> exists p <- processes :: HasValue(variable, value)(p)
    ensures forall value | value in groups ::
      groups[value].name == shown(value) && groups[value].processes == Select(processes, HasValue(variable, value))
  {
    var key := EnvValue(variable);
    groups := GroupsBy(KeysOf(processes, key), processes, key, shown);
    forall value ensures value in groups <==> exists p <- processes :: HasValue(variable, value)(p) {
      KeyIsValue(variable, value, processes);
    }
    forall value | value in groups ensures groups[value].processes == Select(processes, HasValue(variable, value)) {
      KeyIsValue(variable, value, processes);
    }
  }

  lemma {:induction false} KeyIsValue(variable: string, value: Option<string>, processes: seq<ProcessInfo>)
    ensures value in KeysOf(processes, EnvValue(variable))
       <==> exists p <- processes :: HasValue(variable, value)(p)
    ensures Class(processes, EnvValue(variable), value) == Select(processes, HasValue(variable, value))
  {
    SelectSame(processes, HasKey(EnvValue(variable), value), HasValue(variable, value));
    forall p: ProcessInfo ensures EnvValue(variable)(p) == value <==> HasValue(variable, value)(p) {}
  }

  /** The variable has this value in the environment of the process, or is not in it. */
  function HasValue(variable: string, value: Option<string>): ProcessInfo -> bool {
    (p: ProcessInfo) => match value
      case None => variable !in p.environ
      case Some(x) => variable in p.environ && p.environ[variable] == x
  }

  lemma {:induction false} KeysPermuted<K>(a: seq<ProcessInfo>, b: seq<ProcessInfo>, key: ProcessInfo -> K)
    requires multiset(a) == multiset(b)
    ensures KeysOf(a, key) == KeysOf(b, key)
  {
    SameMembers(a, b);
  }

  lemma {:induction false} KeyReportPermuted<K(!new)>(
    rows: seq<Row>, a: seq<ProcessInfo>, b: seq<ProcessInfo>, key: ProcessInfo -> K, title: K -> string, pageSize: nat)
    requires multiset(a) == multiset(b)
    requires IsTable(rows, GroupsBy(KeysOf(a, key), a, key, title), pageSize)
    ensures IsTable(rows, GroupsBy(KeysOf(b, key), b, key, title), pageSize)
  {
    KeysPermuted(a, b, key);
    RowsPermuted(rows, KeysOf(a, key), a, b, key, title, pageSize);
  }

  lemma {:induction false} CustomReportPermuted(
    rows: seq<Row>, a: seq<ProcessInfo>, b: seq<ProcessInfo>, names: seq<string>, filters: seq<Filter>,
    links: set<Edge>, pageSize: nat)
    requires multiset(a) == multiset(b)
    requires IsTable(rows, CustomGroups(names, filters, a, links), pageSize)
    ensures IsTable(rows, CustomGroups(names, filters, b, links), pageSize)
  {
    SelectPermuted(a, b, IsKept(names, filters, links));
    RowsPermuted(rows, CustomNames(names), Kept(names, filters, a, links), Kept(names, filters, b, links),
                 GroupName(names, filters, links), Itself, pageSize);
  }

  /** A report is a function of the collection of processes: their order does not matter. */
  lemma {:induction false} ReportPermuted(
    split: Split, rows: seq<Row>, a: seq<ProcessInfo>, b: seq<ProcessInfo>, s: Setting)
    requires multiset(a) == multiset(b) && IsReport(split, rows, a, s)
    ensures IsReport(split, rows, b, s)
  {
    match split
    case ByUid => KeyReportPermuted(rows, a, b, UidOf, s.username, s.pageSize);
    case ByEnv(variable) => KeyReportPermuted(rows, a, b, EnvValue(variable), s.shown, s.pageSize);
    case ByFilter(input) =>
      var items := SplitterItems(input).value;
      CustomReportPermuted(rows, a, b, items.texts, items.filters, s.links, s.pageSize);
  }

  /** Two reports of one split on the same processes have the same rows. */
  lemma {:induction false} ReportsAgree(
    split: Split, rows: seq<Row>, others: seq<Row>, a: seq<ProcessInfo>, b: seq<ProcessInfo>, s: Setting)
    requires multiset(a) == multiset(b) && IsReport(split, rows, a, s) && IsReport(split, others, b, s)
    ensures multiset(rows) == multiset(others)
  {
    ReportPermuted(split, rows, a, b, s);
    match split
    case ByUid => TablesAgree(rows, others, GroupsBy(KeysOf(b, UidOf), b, UidOf, s.username), s.pageSize);
    case ByEnv(variable) =>
      var key := EnvValue(variable);
      TablesAgree(rows, others, GroupsBy(KeysOf(b, key), b, key, s.shown), s.pageSize);
    case ByFilter(input) =>
      var items := SplitterItems(input).value;
      TablesAgree(rows, others, CustomGroups(items.texts, items.filters, b, s.links), s.pageSize);
  }

  lemma {:induction false} SurvivorsPermuted(
    split: Split, a: seq<ProcessInfo>, b: seq<ProcessInfo>, links: set<Edge>)
    requires multiset(a) == multiset(b)
    ensures multiset(Survivors(split, a, links)) == multiset(Survivors(split, b, links))
  {
    if split.ByFilter? && SplitterItems(split.input).Ok? {
      var items := SplitterItems(split.input).value;
      SelectPermuted(a, b, IsKept(items.texts, items.filters, links));
    }
  }

  /** The processes left after a sequence of splits. */
  ghost function AllSurvivors(plan: seq<Split>, processes: seq<ProcessInfo>, links: set<Edge>): seq<ProcessInfo> {
    if plan == [] then processes
    else Survivors(plan[|plan| - 1], AllSurvivors(plan[..|plan| - 1], processes, links), links)
  }

  /** One report for each split of the plan, each on what the splits before it left of `processes`. */
  ghost predicate Reported(plan: seq<Split>, reports: seq<seq<Row>>, processes: seq<ProcessInfo>, s: Setting) {
    && |reports| == |plan|
    && (plan != [] ==>
          var last := |plan| - 1;
          && IsReport(plan[last], reports[last], AllSurvivors(plan[..last], processes, s.links), s)
          && Reported(plan[..last], reports[..last], processes, s))
  }

  lemma {:induction false} ReportedAt(
    plan: seq<Split>, reports: seq<seq<Row>>, processes: seq<ProcessInfo>, s: Setting, i: nat)
    requires Reported(plan, reports, processes, s) && i < |plan|
    ensures |reports| == |plan|
    ensures IsReport(plan[i], reports[i], AllSurvivors(plan[..i], processes, s.links), s)
  {
    var last := |plan| - 1;
    if i < last {
      ReportedAt(plan[..last], reports[..last], processes, s, i);
      assert plan[..last][..i] == plan[..i];
    }
  }

  lemma {:induction false} AllSurvivorsPermuted(
    plan: seq<Split>, a: seq<ProcessInfo>, b: seq<ProcessInfo>, links: set<Edge>)
    requires multiset(a) == multiset(b)
    ensures multiset(AllSurvivors(plan, a, links)) == multiset(AllSurvivors(plan, b, links))
  {
    if plan != [] {
      var front := plan[..|plan| - 1];
      AllSurvivorsPermuted(front, a, b, links);
      SurvivorsPermuted(plan[|plan| - 1], AllSurvivors(front, a, links), AllSurvivors(front, b, links), links);
    }
  }

  /** Two runs of one plan on the same processes show the same rows, report by report. */
  lemma {:induction false} RunsAgree(
    plan: seq<Split>, reports: seq<seq<Row>>, others: seq<seq<Row>>, a: seq<ProcessInfo>, b: seq<ProcessInfo>,
    s: Setting, i: nat)
    requires multiset(a) == multiset(b) && i < |plan|
    requires Reported(plan, reports, a, s) && Reported(plan, others, b, s)
    ensures |reports| == |others| == |plan| && multiset(reports[i]) == multiset(others[i])
  {
    ReportedAt(plan, reports, a, s, i);
    ReportedAt(plan, others, b, s, i);
    AllSurvivorsPermuted(plan[..i], a, b, s.links);
    var hereA, hereB := AllSurvivors(plan[..i], a, s.links), AllSurvivors(plan[..i], b, s.links);
    ReportsAgree(plan[i], reports[i], others[i], hereA, hereB, s);
  }

  /** Every filter list of the plan is valid. */
  ghost predicate AllAccepted(plan: seq<Split>) {
    plan != [] ==> Accepted(plan[0]) && AllAccepted(plan[1..])
  }

  /** How far a run has come: the reports shown, and the processes collected for the next one. */
  ghost predicate Progress(
    plan: seq<Split>, reports: seq<seq<Row>>, left: seq<ProcessInfo>, processes: seq<ProcessInfo>, s: Setting)
  {
    && Reported(plan, reports, processes, s)
    && multiset(left) == multiset(AllSurvivors(plan, processes, s.links))
  }

  lemma {:induction false} ProgressStep(
    plan: seq<Split>, reports: seq<seq<Row>>, left: seq<ProcessInfo>, processes: seq<ProcessInfo>, s: Setting,
    split: Split, rows: seq<Row>, left': seq<ProcessInfo>)
    requires Progress(plan, reports, left, processes, s)
    requires IsReport(split, rows, left, s) && multiset(left') == multiset(Survivors(split, left, s.links))
    ensures Progress(plan + [split], reports + [rows], left', processes, s)
  {
    var here := AllSurvivors(plan, processes, s.links);
    assert (plan + [split])[..|plan|] == plan && (reports + [rows])[..|plan|] == reports;
    ReportPermuted(split, rows, left, here, s);
    SurvivorsPermuted(split, left, here, s.links);
  }

  /** Collecting the groups of a key gives the processes back, in another order. */
  lemma {:induction false} KeySplitConserves<K(!new)>(
    processes: seq<ProcessInfo>, key: ProcessInfo -> K, title: K -> string, left: seq<ProcessInfo>)
    requires Collected(left, GroupsBy(KeysOf(processes, key), processes, key, title))
    ensures multiset(left) == multiset(processes)
  {
    var order: seq<K> :| CollectedBy(left, GroupsBy(KeysOf(processes, key), processes, key, title), order);
    GroupingConserves(KeysOf(processes, key), processes, key, title, order);
  }

  lemma {:induction false} ByUidIsCollected(processes: seq<ProcessInfo>, groups: map<u32, ProcessGroupInfo>)
    requires CollectedByUid(processes, groups)
    ensures Collected(processes, groups)
  {
  }

  method RunUid(processes: seq<ProcessInfo>, ghost s: Setting, username: u32 -> string, pageSize: nat)
    returns (rows: seq<Row>, left: seq<ProcessInfo>)
    requires s.username == username && s.pageSize == pageSize
    ensures IsReport(ByUid, rows, processes, s) && multiset(left) == multiset(processes)
  {
    var splitter := new ProcessSplitterUid();
    splitter.Split(processes, username);
    ghost var groups := GroupsBy(KeysOf(processes, UidOf), processes, UidOf, username);
    AddToNothing(groups);
    rows := Reports.Display(splitter.groups, pageSize);
    left := splitter.Collect();
    ByUidIsCollected(left, groups);
    KeySplitConserves(processes, UidOf, username, left);
  }

  lemma {:induction false} AddToNothing<K, V>(m: map<K, V>)
    ensures map[] + m == m
  {
  }

  method RunEnv(
    processes: seq<ProcessInfo>, ghost s: Setting, variable: string, shown: Option<string> -> string, pageSize: nat)
    returns (rows: seq<Row>, left: seq<ProcessInfo>)
    requires s.shown == shown && s.pageSize == pageSize
    ensures IsReport(ByEnv(variable), rows, processes, s) && multiset(left) == multiset(processes)
  {
    var splitter := new ProcessSplitterEnvVariable(variable);
    splitter.Split(processes, shown);
    rows := Reports.Display(splitter.groups, pageSize);
    left := splitter.Collect();
    KeySplitConserves(processes, EnvValue(variable), shown, left);
  }

  lemma {:induction false} FilterRun(
    processes: seq<ProcessInfo>, input: string, links: set<Edge>, left: seq<ProcessInfo>)
    requires SplitterItems(input).Ok?
    requires var items := SplitterItems(input).value;
             Collected(left, CustomGroups(items.texts, items.filters, processes, links))
    ensures multiset(left) == multiset(Survivors(ByFilter(input), processes, links))
  {
    var items := SplitterItems(input).value;
    ListNamesMatch(input);
    CustomSplitHoldsKept(items.texts, items.filters, processes, links, left);
  }

  /** `None` when `new` fails: the caller unwraps its result and panics. */
  method RunFilter(processes: seq<ProcessInfo>, ghost s: Setting, input: string, tree: ProcessTree, pageSize: nat)
    returns (r: Option<(seq<Row>, seq<ProcessInfo>)>)
    requires s.links == tree.Links() && s.pageSize == pageSize
    ensures r.Some? <==> SplitterItems(input).Ok?
    ensures r.Some? ==> IsReport(ByFilter(input), r.value.0, processes, s)
    ensures r.Some? ==> multiset(r.value.1) == multiset(Survivors(ByFilter(input), processes, s.links))
  {
    var made := ProcessSplitterCustomFilter.New(input);
    if made.Err? {
      return None;
    }
    var splitter := made.value;
    splitter.Split(tree, processes);
    ghost var items := SplitterItems(input).value;
    AddToNothing(CustomGroups(items.texts, items.filters, processes, s.links));
    var rows := Reports.Display(splitter.groups, pageSize);
    var left := splitter.Collect();
    FilterRun(processes, input, s.links, left);
    return Some((rows, left));
  }

  // ----- the expression of `--split-pids`

  function PidCall(pid: i32): string {
    "pid(" + Show(pid) + ")"
  }

  /** The calls joined by commas. */
  function PidCalls(pids: seq<i32>): string
    requires pids != []
  {
    if |pids| == 1 then PidCall(pids[0]) else PidCall(pids[0]) + "," + PidCalls(pids[1..])
  }

  function PidExpression(pids: seq<i32>): string
    requires pids != []
  {
    if |pids| == 1 then PidCall(pids[0]) else "or(" + PidCalls(pids) + ")"
  }

  /** The expression of one pid, and of two. */
  lemma {:induction false} PidExpressionText(p: i32, q: i32)
    ensures PidExpression([p]) == "pid(" + Show(p) + ")"
    ensures PidExpression([p, q]) == "or(" + (("pid(" + Show(p) + ")") + "," + ("pid(" + Show(q) + ")")) + ")"
  {
    assert [p, q][1..] == [q];
    assert PidCalls([q]) == PidCall(q);
  }

  /** And of one pid more. */
  lemma {:induction false} PidExpressionPush(pids: seq<i32>, p: i32) returns (list: string)
    requires |pids| >= 2
    ensures PidExpression(pids) == "or(" + list + ")"
    ensures PidExpression(pids + [p]) == "or(" + (list + "," + ("pid(" + Show(p) + ")")) + ")"
  {
    list := PidCalls(pids);
    PidCallsPush(pids, p);
  }

  lemma {:induction false} PidCallsPush(pids: seq<i32>, p: i32)
    requires pids != []
    ensures PidCalls(pids + [p]) == PidCalls(pids) + "," + PidCall(p)
  {
    if |pids| == 1 {
      assert (pids + [p])[1..] == [p];
    } else {
      PidCallsPush(pids[1..], p);
      assert (pids + [p])[1..] == pids[1..] + [p];
    }
  }

  function PidFilters(pids: seq<i32>): (fs: seq<Filter>)
    ensures |fs| == |pids| && forall i | 0 <= i < |fs| :: fs[i] == Pid(pids[i])
  {
    seq(|pids|, i requires 0 <= i < |pids| => Pid(pids[i]))
  }

  function PidFilter(pids: seq<i32>): Filter
    requires pids != []
  {
    if |pids| == 1 then Pid(pids[0]) else Or(PidFilters(pids))
  }

  lemma {:induction false} PidCallPrints(pid: i32)
    ensures PidCall(pid) == Print(Pid(pid))
  {
    assert PrintArgument(Pid(pid)) == Show(pid);
  }

  lemma {:induction false} PidCallsPrint(pids: seq<i32>)
    requires pids != []
    ensures PidCalls(pids) == PrintList(PidFilters(pids))
  {
    PidCallPrints(pids[0]);
    if |pids| > 1 {
      PidCallsPrint(pids[1..]);
      assert PidFilters(pids)[1..] == PidFilters(pids[1..]);
    }
  }

  lemma {:induction false} OrPrints(fs: seq<Filter>)
    ensures Print(Or(fs)) == "or(" + PrintList(fs) + ")"
  {
    assert PrintArgument(Or(fs)) == PrintList(fs);
    assert Spelling(OrOp) + "(" == "or(";
  }

  lemma {:induction false} PidExpressionPrints(pids: seq<i32>)
    requires pids != []
    ensures PidExpression(pids) == Print(PidFilter(pids))
  {
    if |pids| == 1 {
      PidCallPrints(pids[0]);
    } else {
      PidCallsPrint(pids);
      OrPrints(PidFilters(pids));
    }
  }

  lemma {:induction false} AsciiConcat(a: string, b: string)
    requires IsAscii(a) && IsAscii(b)
    ensures IsAscii(a + b)
  {
  }

  lemma {:induction false} PidCallAscii(pid: i32)
    ensures IsAscii(PidCall(pid))
  {
    ShownChars(pid);
    forall i | 0 <= i < |Show(pid)| ensures Show(pid)[i] as int < 128 {
      assert Show(pid)[i] in Show(pid);
    }
    AsciiConcat("pid(", Show(pid));
    AsciiConcat("pid(" + Show(pid), ")");
  }

  lemma {:induction false} PidCallsAscii(pids: seq<i32>)
    requires pids != []
    ensures IsAscii(PidCalls(pids))
  {
    PidCallAscii(pids[0]);
    if |pids| > 1 {
      PidCallsAscii(pids[1..]);
      AsciiConcat(PidCall(pids[0]), ",");
      AsciiConcat(PidCall(pids[0]) + ",", PidCalls(pids[1..]));
    }
  }

  lemma {:induction false} PidExpressionAscii(pids: seq<i32>)
    requires pids != []
    ensures IsAscii(PidExpression(pids))
  {
    if |pids| == 1 {
      PidCallAscii(pids[0]);
    } else {
      PidCallsAscii(pids);
      AsciiConcat("or(", PidCalls(pids));
      AsciiConcat("or(" + PidCalls(pids), ")");
    }
  }

  lemma {:induction false} PidExpressionParses(pids: seq<i32>)
    requires pids != []
    ensures SplitterItems(PidExpression(pids)) == Ok(Items([PidFilter(pids)], [PidExpression(pids)]))
  {
    PidExpressionPrints(pids);
    PidExpressionAscii(pids);
    OneItem(PidFilter(pids));
  }

  lemma {:induction false} PidFilterAccepts(pids: seq<i32>, p: Process, links: set<Edge>)
    requires pids != []
    ensures Eval(PidFilter(pids), p, links) <==> p.pid in pids
  {
    if |pids| > 1 {
      var fs := PidFilters(pids);
      if p.pid in pids {
        var i :| 0 <= i < |pids| && pids[i] == p.pid;
        assert fs[i] in fs && Eval(fs[i], p, links);
      }
    }
  }

  function InPids(pids: seq<i32>): ProcessInfo -> bool {
    (p: ProcessInfo) => p.process.pid in pids
  }

  function NotInPids(pids: seq<i32>): ProcessInfo -> bool {
    (p: ProcessInfo) => p.process.pid !in pids
  }

  lemma {:induction false} PidFirstMatch(pids: seq<i32>, p: Process, links: set<Edge>)
    requires pids != []
    ensures FirstMatch([PidFilter(pids)], p, links) == if p.pid in pids then 0 else 1
  {
    PidFilterAccepts(pids, p, links);
  }

  lemma {:induction false} PidClasses(expr: string, pids: seq<i32>, processes: seq<ProcessInfo>, links: set<Edge>)
    requires pids != [] && expr != OTHER
    ensures var groups := CustomGroups([expr], [PidFilter(pids)], processes, links);
            && groups.Keys == {expr, OTHER}
            && groups[expr].processes == Select(processes, InPids(pids))
            && groups[OTHER].processes == Select(processes, NotInPids(pids))
  {
    var names, filters := [expr], [PidFilter(pids)];
    forall p: ProcessInfo ensures FirstMatch(filters, p.process, links) == if InPids(pids)(p) then 0 else 1 {
      PidFirstMatch(pids, p.process, links);
    }
    assert IsLast(names, 0);
    CustomAt(names, filters, processes, links, 0);
    CustomAt(names, filters, processes, links, 1);
    SelectSame(processes, At(filters, links, 0), InPids(pids));
    SelectSame(processes, At(filters, links, 1), NotInPids(pids));
  }

  /**
   The built expression is always valid, and splits the processes into those whose pid is listed and the others,
   for every non-empty list of pids, negative and repeated ones included.
   */
  lemma {:induction false} PidReport(pids: seq<i32>, processes: seq<ProcessInfo>, links: set<Edge>)
    requires pids != []
    ensures var expr := PidExpression(pids);
            && SplitterItems(expr) == Ok(Items([PidFilter(pids)], [expr]))
            && var groups := CustomGroups([expr], [PidFilter(pids)], processes, links);
               && expr != OTHER && groups.Keys == {expr, OTHER}
               && groups[expr].processes == Select(processes, InPids(pids))
               && groups[OTHER].processes == Select(processes, NotInPids(pids))
  {
    var expr := PidExpression(pids);
    PidExpressionParses(pids);
    ListNamesMatch(expr);
    OtherIsNoName([expr], [PidFilter(pids)]);
    assert [expr][0] in [expr];
    PidClasses(expr, pids, processes, links);
  }

  // ----- `scan_single`

  method ScanSingle(processes: seq<ProcessInfo>) returns (memPages: set<Pfn>, swapPages: set<SwapPage>)
    ensures memPages == AllOf(processes, PfnsOf) && swapPages == AllOf(processes, SwapPagesOf)
  {
    memPages, swapPages := {}, {};
    for i := 0 to |processes|
      invariant memPages == AllOf(processes[..i], PfnsOf) && swapPages == AllOf(processes[..i], SwapPagesOf)
    {
      assert processes[..i + 1] == processes[..i] + [processes[i]];
      AllPush(processes[..i], processes[i], PfnsOf);
      AllPush(processes[..i], processes[i], SwapPagesOf);
      memPages := memPages + processes[i].pfns;
      swapPages := swapPages + processes[i].swapPages;
    }
    assert processes[..|processes|] == processes;
  }

  /** The filters of the split have different texts, so that no group replaces another. */
  ghost predicate NeverRepeats(split: Split) {
    split.ByFilter? && SplitterItems(split.input).Ok? ==> Distinct(SplitterItems(split.input).value.texts)
  }

  /** Without repeated filter texts every report of a run is about all the processes. */
  lemma {:induction false} NothingLost(plan: seq<Split>, processes: seq<ProcessInfo>, links: set<Edge>)
    requires forall split <- plan :: NeverRepeats(split)
    ensures AllSurvivors(plan, processes, links) == processes
  {
    if plan != [] {
      var split := plan[|plan| - 1];
      assert split in plan;
      NothingLost(plan[..|plan| - 1], processes, links);
      if split.ByFilter? && SplitterItems(split.input).Ok? {
        var items := SplitterItems(split.input).value;
        ListNamesMatch(split.input);
        DistinctNamesKeepAll(items.texts, items.filters, processes, links);
      }
    }
  }
}
