/** A run of `memstats groups`: its splits one after the other, and which report is which. */
module Runs {
  import opened Wrappers
  import opened Decimal
  import opened Processes
  import opened ProcessGroups
  import opened Splitters
  import opened Reports
  import opened Memstats

  // ----- `scan_groups`

  /** The custom reports still to come: the command line arrives reversed and is popped from its end. */
  function CustomPlan(pending: seq<string>): seq<Split> {
    if pending == [] then []
    else [ByFilter(pending[|pending| - 1])] + CustomPlan(pending[..|pending| - 1])
  }

  /** The splits of a run, in order. */
  function Plan(splitUid: bool, splitEnv: Option<string>, splitPids: seq<i32>, splitCustom: seq<string>): seq<Split> {
    (if splitUid then [ByUid] else [])
    + ((if splitEnv.Some? then [ByEnv(splitEnv.value)] else [])
       + ((if splitPids != [] then [ByFilter(PidExpression(splitPids))] else [])
          + CustomPlan(splitCustom)))
  }

  lemma {:induction false} PlanUid(splitEnv: Option<string>, splitPids: seq<i32>, splitCustom: seq<string>)
    ensures Plan(true, splitEnv, splitPids, splitCustom)
         == [ByUid] + Plan(false, splitEnv, splitPids, splitCustom)
  {
  }

  lemma {:induction false} PlanEnv(variable: string, splitPids: seq<i32>, splitCustom: seq<string>)
    ensures Plan(false, Some(variable), splitPids, splitCustom)
         == [ByEnv(variable)] + Plan(false, None, splitPids, splitCustom)
  {
  }

  lemma {:induction false} PlanPids(splitPids: seq<i32>, splitCustom: seq<string>)
    ensures Plan(false, None, splitPids, splitCustom)
         == if splitPids == [] then CustomPlan(splitCustom)
            else [ByFilter(PidExpression(splitPids))] + CustomPlan(splitCustom)
  {
  }

  /** What a run that still has to do `rest` gives in the end. */
  ghost predicate Ends(
    r: Option<seq<seq<Row>>>, done: seq<Split>, rest: seq<Split>, processes: seq<ProcessInfo>, s: Setting)
  {
    && (r.Some? <==> AllAccepted(rest))
    && (r.Some? ==> Reported(done + rest, r.value, processes, s))
  }

  lemma {:induction false} EndsBefore(
    r: Option<seq<seq<Row>>>, done: seq<Split>, split: Split, rest: seq<Split>, processes: seq<ProcessInfo>, s: Setting)
    requires Accepted(split) && Ends(r, done + [split], rest, processes, s)
    ensures Ends(r, done, [split] + rest, processes, s)
  {
    assert ([split] + rest)[1..] == rest;
    assert done + [split] + rest == done + ([split] + rest);
  }

  lemma {:induction false} EndsHere(
    reports: seq<seq<Row>>, left: seq<ProcessInfo>, done: seq<Split>, processes: seq<ProcessInfo>, s: Setting)
    requires Progress(done, reports, left, processes, s)
    ensures Ends(Some(reports), done, [], processes, s)
  {
    assert done + [] == done;
  }

  lemma {:induction false} EndsWithPanic(
    done: seq<Split>, split: Split, rest: seq<Split>, processes: seq<ProcessInfo>, s: Setting)
    requires !Accepted(split)
    ensures Ends(None, done, [split] + rest, processes, s)
  {
  }

  /** Whatever the orders of iteration, two runs both panic, or show the same rows in each report. */
  lemma {:induction false} OutcomesAgree(
    r: Option<seq<seq<Row>>>, q: Option<seq<seq<Row>>>, plan: seq<Split>,
    a: seq<ProcessInfo>, b: seq<ProcessInfo>, s: Setting)
    requires multiset(a) == multiset(b) && Ends(r, [], plan, a, s) && Ends(q, [], plan, b, s)
    ensures r.Some? <==> q.Some?
    ensures r.Some? ==> |r.value| == |q.value| == |plan|
    ensures r.Some? ==> forall i | 0 <= i < |plan| :: multiset(r.value[i]) == multiset(q.value[i])
  {
    assert [] + plan == plan;
    if r.Some? {
      forall i | 0 <= i < |plan| ensures multiset(r.value[i]) == multiset(q.value[i]) {
        RunsAgree(plan, r.value, q.value, a, b, s, i);
      }
    }
  }

  /** `None` stands for the panic on a custom filter that is not valid. */
  method ScanPlan(
    processes: seq<ProcessInfo>, tree: ProcessTree, splitUid: bool, splitEnv: Option<string>,
    splitPids: seq<i32>, splitCustom: seq<string>,
    username: u32 -> string, shown: Option<string> -> string, pageSize: nat)
    returns (r: Option<seq<seq<Row>>>)
    ensures Ends(r, [], Plan(splitUid, splitEnv, splitPids, splitCustom), processes,
                 Setting(tree.Links(), username, shown, pageSize))
  {
    ghost var s := Setting(tree.Links(), username, shown, pageSize);
    if splitUid {
      PlanUid(splitEnv, splitPids, splitCustom);
      var rows, left := RunUid(processes, s, username, pageSize);
      ProgressStep([], [], processes, processes, s, ByUid, rows, left);
      assert [] + [ByUid] == [ByUid] && [] + [rows] == [rows];
      r := ScanEnv(processes, left, tree, splitEnv, splitPids, splitCustom, shown, pageSize, [ByUid], [rows], s);
      EndsBefore(r, [], ByUid, Plan(false, splitEnv, splitPids, splitCustom), processes, s);
    } else {
      r := ScanEnv(processes, processes, tree, splitEnv, splitPids, splitCustom, shown, pageSize, [], [], s);
    }
  }

  /** The rest of `scan_groups` from the split by environment variable on. */
  method ScanEnv(
    ghost processes: seq<ProcessInfo>, collected: seq<ProcessInfo>, tree: ProcessTree, splitEnv: Option<string>,
    splitPids: seq<i32>, splitCustom: seq<string>, shown: Option<string> -> string, pageSize: nat,
    ghost done: seq<Split>, reports: seq<seq<Row>>, ghost s: Setting)
    returns (r: Option<seq<seq<Row>>>)
    requires s.links == tree.Links() && s.shown == shown && s.pageSize == pageSize
    requires Progress(done, reports, collected, processes, s)
    ensures Ends(r, done, Plan(false, splitEnv, splitPids, splitCustom), processes, s)
  {
    if splitEnv.Some? {
      PlanEnv(splitEnv.value, splitPids, splitCustom);
      ghost var split := ByEnv(splitEnv.value);
      var rows, left := RunEnv(collected, s, splitEnv.value, shown, pageSize);
      ProgressStep(done, reports, collected, processes, s, split, rows, left);
      r := ScanPids(processes, left, tree, splitPids, splitCustom, pageSize, done + [split], reports + [rows], s);
      EndsBefore(r, done, split, Plan(false, None, splitPids, splitCustom), processes, s);
    } else {
      r := ScanPids(processes, collected, tree, splitPids, splitCustom, pageSize, done, reports, s);
    }
  }

  /** The rest of `scan_groups` from the split by pids on: its expression is always valid. */
  method ScanPids(
    ghost processes: seq<ProcessInfo>, collected: seq<ProcessInfo>, tree: ProcessTree,
    splitPids: seq<i32>, splitCustom: seq<string>, pageSize: nat,
    ghost done: seq<Split>, reports: seq<seq<Row>>, ghost s: Setting)
    returns (r: Option<seq<seq<Row>>>)
    requires s.links == tree.Links() && s.pageSize == pageSize
    requires Progress(done, reports, collected, processes, s)
    ensures Ends(r, done, Plan(false, None, splitPids, splitCustom), processes, s)
  {
    PlanPids(splitPids, splitCustom);
    if splitPids != [] {
      var expr := PidExpression(splitPids);
      ghost var split := ByFilter(expr);
      PidExpressionParses(splitPids);
      var run := RunFilter(collected, s, expr, tree, pageSize);
      var (rows, left) := run.value;
      ProgressStep(done, reports, collected, processes, s, split, rows, left);
      r := ScanCustom(processes, left, tree, splitCustom, pageSize, done + [split], reports + [rows], s);
      EndsBefore(r, done, split, CustomPlan(splitCustom), processes, s);
    } else {
      r := ScanCustom(processes, collected, tree, splitCustom, pageSize, done, reports, s);
    }
  }

  /** The last loop of `scan_groups`: one report for each custom filter list. */
  method ScanCustom(
    ghost processes: seq<ProcessInfo>, collected: seq<ProcessInfo>, tree: ProcessTree, splitCustom: seq<string>,
    pageSize: nat, ghost before: seq<Split>, reports: seq<seq<Row>>, ghost s: Setting)
    returns (r: Option<seq<seq<Row>>>)
    requires s.links == tree.Links() && s.pageSize == pageSize
    requires Progress(before, reports, collected, processes, s)
    ensures Ends(r, before, CustomPlan(splitCustom), processes, s)
    decreases |splitCustom|
  {
    ghost var done := before;
    var left, shownReports, pending := collected, reports, splitCustom;
    while pending != []
      invariant Progress(done, shownReports, left, processes, s)
      invariant forall r :: Ends(r, done, CustomPlan(pending), processes, s)
                        ==> Ends(r, before, CustomPlan(splitCustom), processes, s)
      decreases |pending|
    {
      var filter := pending[|pending| - 1];
      ghost var split := ByFilter(filter);
      pending := pending[..|pending| - 1];
      ghost var rest := CustomPlan(pending);
      var run := RunFilter(left, s, filter, tree, pageSize);
      if run == None {
        EndsWithPanic(done, split, rest, processes, s);
        return None;
      }
      var (rows, left') := run.value;
      ProgressStep(done, shownReports, left, processes, s, split, rows, left');
      forall r | Ends(r, done + [split], rest, processes, s) ensures Ends(r, done, [split] + rest, processes, s) {
        EndsBefore(r, done, split, rest, processes, s);
      }
      done, shownReports, left := done + [split], shownReports + [rows], left';
    }
    EndsHere(shownReports, left, done, processes, s);
    return Some(shownReports);
  }

  // ----- which report is which

  function Reversed<T>(s: seq<T>): (r: seq<T>)
    ensures |r| == |s|
  {
    if s == [] then [] else Reversed(s[1..]) + [s[0]]
  }

  lemma {:induction false} ReversedAt<T>(s: seq<T>, i: nat)
    requires i < |s|
    ensures Reversed(s)[i] == s[|s| - 1 - i]
  {
    if i < |s| - 1 {
      ReversedAt(s[1..], i);
    }
  }

  lemma {:induction false} ReversedTwice<T>(s: seq<T>)
    ensures Reversed(Reversed(s)) == s
  {
    forall i | 0 <= i < |s| ensures Reversed(Reversed(s))[i] == s[i] {
      ReversedAt(Reversed(s), i);
      ReversedAt(s, |s| - 1 - i);
    }
  }

  lemma {:induction false} ReversedLast<T>(s: seq<T>)
    requires s != []
    ensures Reversed(s) == [s[|s| - 1]] + Reversed(s[..|s| - 1])
  {
    if |s| > 1 {
      ReversedLast(s[1..]);
      assert s[1..][..|s| - 2] == s[..|s| - 1][1..];
    }
  }

  /** One split for each list, in their order. */
  function ByFilters(lists: seq<string>): (plan: seq<Split>)
    ensures |plan| == |lists| && forall i | 0 <= i < |plan| :: plan[i] == ByFilter(lists[i])
  {
    seq(|lists|, i requires 0 <= i < |lists| => ByFilter(lists[i]))
  }

  /** The custom lists are popped from the end. */
  lemma {:induction false} CustomPlanIs(pending: seq<string>)
    ensures CustomPlan(pending) == ByFilters(Reversed(pending))
  {
    if pending != [] {
      CustomPlanIs(pending[..|pending| - 1]);
      ReversedLast(pending);
    }
  }

  /** What comes before the custom reports. */
  function Fixed(splitUid: bool, splitEnv: Option<string>, splitPids: seq<i32>): seq<Split> {
    Plan(splitUid, splitEnv, splitPids, [])
  }

  lemma {:induction false} PlanIsFixedAndCustom(
    splitUid: bool, splitEnv: Option<string>, splitPids: seq<i32>, splitCustom: seq<string>)
    ensures Plan(splitUid, splitEnv, splitPids, splitCustom)
         == Fixed(splitUid, splitEnv, splitPids) + CustomPlan(splitCustom)
  {
  }

  /** The positions of the reports by uid, by variable and by pids. */
  lemma {:induction false} FixedAt(splitUid: bool, splitEnv: Option<string>, splitPids: seq<i32>)
    ensures var u, e, d := if splitUid then 1 else 0, if splitEnv.Some? then 1 else 0, if splitPids != [] then 1 else 0;
            var fixed := Fixed(splitUid, splitEnv, splitPids);
            && |fixed| == u + e + d
            && (splitUid ==> fixed[0] == ByUid)
            && (splitEnv.Some? ==> fixed[u] == ByEnv(splitEnv.value))
            && (splitPids != [] ==> fixed[u + e] == ByFilter(PidExpression(splitPids)))
  {
  }

  /** These splits are always accepted and lose nothing. */
  ghost predicate IsFixed(split: Split) {
    split.ByFilter? ==> exists pids: seq<i32> :: pids != [] && split.input == PidExpression(pids)
  }

  lemma {:induction false} FixedKeeps(split: Split, processes: seq<ProcessInfo>, links: set<Edge>)
    requires IsFixed(split)
    ensures Accepted(split) && Survivors(split, processes, links) == processes
  {
    if split.ByFilter? {
      var pids: seq<i32> :| pids != [] && split.input == PidExpression(pids);
      PidExpressionParses(pids);
      DistinctNamesKeepAll([split.input], [PidFilter(pids)], processes, links);
    }
  }

  lemma {:induction false} AllFixedKeep(plan: seq<Split>, processes: seq<ProcessInfo>, links: set<Edge>)
    requires forall i | 0 <= i < |plan| :: IsFixed(plan[i])
    ensures AllSurvivors(plan, processes, links) == processes
  {
    if plan != [] {
      AllFixedKeep(plan[..|plan| - 1], processes, links);
      FixedKeeps(plan[|plan| - 1], processes, links);
    }
  }

  lemma {:induction false} FixedIsFixed(splitUid: bool, splitEnv: Option<string>, splitPids: seq<i32>)
    ensures var fixed := Fixed(splitUid, splitEnv, splitPids); forall i | 0 <= i < |fixed| :: IsFixed(fixed[i])
  {
    FixedAt(splitUid, splitEnv, splitPids);
  }

  lemma {:induction false} SurvivorsJoin(a: seq<Split>, b: seq<Split>, processes: seq<ProcessInfo>, links: set<Edge>)
    ensures AllSurvivors(a + b, processes, links) == AllSurvivors(b, AllSurvivors(a, processes, links), links)
  {
    if b == [] {
      assert a + b == a;
    } else {
      var front := b[..|b| - 1];
      SurvivorsJoin(a, front, processes, links);
      assert (a + b)[..|a + b| - 1] == a + front;
    }
  }

  /** The processes left by the first `n` of these lists. */
  ghost function AfterLists(lists: seq<string>, n: nat, processes: seq<ProcessInfo>, links: set<Edge>)
    : seq<ProcessInfo>
    requires n <= |lists|
  {
    AllSurvivors(ByFilters(lists[..n]), processes, links)
  }

  /** Report `base + i` is the one of list `i`, about the processes that the lists before it left. */
  ghost predicate ListReports(
    reports: seq<seq<Row>>, base: nat, lists: seq<string>, processes: seq<ProcessInfo>, s: Setting)
  {
    && |reports| == base + |lists|
    && forall i | 0 <= i < |lists| ::
         IsReport(ByFilter(lists[i]), reports[base + i], AfterLists(lists, i, processes, s.links), s)
  }

  lemma {:induction false} AcceptedJoin(a: seq<Split>, b: seq<Split>)
    requires AllAccepted(a)
    ensures AllAccepted(a + b) <==> AllAccepted(b)
  {
    if a == [] {
      assert a + b == b;
    } else {
      AcceptedJoin(a[1..], b);
      assert (a + b)[1..] == a[1..] + b;
    }
  }

  lemma {:induction false} FixedAccepted(fixed: seq<Split>)
    requires forall j | 0 <= j < |fixed| :: IsFixed(fixed[j])
    ensures AllAccepted(fixed)
  {
    if fixed != [] {
      FixedKeeps(fixed[0], [], {});
      FixedAccepted(fixed[1..]);
    }
  }

  lemma {:induction false} ListsAccepted(lists: seq<string>)
    ensures AllAccepted(ByFilters(lists)) <==> forall input <- lists :: SplitterItems(input).Ok?
  {
    if lists != [] {
      ListsAccepted(lists[1..]);
      assert ByFilters(lists)[1..] == ByFilters(lists[1..]);
      assert lists == [lists[0]] + lists[1..];
    }
  }

  lemma {:induction false} PlannedReport(
    plan: seq<Split>, reports: seq<seq<Row>>, processes: seq<ProcessInfo>, s: Setting, k: nat, split: Split,
    left: seq<ProcessInfo>)
    requires Reported(plan, reports, processes, s) && k < |plan|
    requires plan[k] == split && AllSurvivors(plan[..k], processes, s.links) == left
    ensures |reports| == |plan| && IsReport(split, reports[k], left, s)
  {
    ReportedAt(plan, reports, processes, s, k);
  }

  lemma {:induction false} ReportedLength(
    plan: seq<Split>, reports: seq<seq<Row>>, processes: seq<ProcessInfo>, s: Setting)
    requires Reported(plan, reports, processes, s)
    ensures |reports| == |plan|
  {
  }

  lemma {:induction false} FixedReport(
    fixed: seq<Split>, rest: seq<Split>, reports: seq<seq<Row>>, processes: seq<ProcessInfo>, s: Setting, k: nat)
    requires Reported(fixed + rest, reports, processes, s) && k < |fixed|
    requires forall j | 0 <= j < |fixed| :: IsFixed(fixed[j])
    ensures |reports| == |fixed| + |rest| && IsReport(fixed[k], reports[k], processes, s)
  {
    var plan := fixed + rest;
    assert plan[..k] == fixed[..k];
    AllFixedKeep(fixed[..k], processes, s.links);
    PlannedReport(plan, reports, processes, s, k, fixed[k], processes);
  }

  /** The splits before leave all the processes to the rest. */
  lemma {:induction false} RestSurvivors(
    fixed: seq<Split>, rest: seq<Split>, i: nat, processes: seq<ProcessInfo>, links: set<Edge>)
    requires i <= |rest| && AllSurvivors(fixed, processes, links) == processes
    ensures AllSurvivors((fixed + rest)[..|fixed| + i], processes, links) == AllSurvivors(rest[..i], processes, links)
  {
    SurvivorsJoin(fixed, rest[..i], processes, links);
    assert (fixed + rest)[..|fixed| + i] == fixed + rest[..i];
  }

  lemma {:induction false} RestReport(
    plan: seq<Split>, fixed: seq<Split>, rest: seq<Split>, reports: seq<seq<Row>>, processes: seq<ProcessInfo>,
    s: Setting, i: nat, split: Split)
    requires plan == fixed + rest && i < |rest| && rest[i] == split
    requires Reported(plan, reports, processes, s) && AllSurvivors(fixed, processes, s.links) == processes
    ensures |reports| == |plan|
    ensures IsReport(split, reports[|fixed| + i], AllSurvivors(rest[..i], processes, s.links), s)
  {
    RestSurvivors(fixed, rest, i, processes, s.links);
    PlannedReport(plan, reports, processes, s, |fixed| + i, split, AllSurvivors(rest[..i], processes, s.links));
  }

  lemma {:induction false} AllListReports(
    fixed: seq<Split>, lists: seq<string>, reports: seq<seq<Row>>, processes: seq<ProcessInfo>, s: Setting)
    requires Reported(fixed + ByFilters(lists), reports, processes, s)
    requires forall j | 0 <= j < |fixed| :: IsFixed(fixed[j])
    ensures ListReports(reports, |fixed|, lists, processes, s)
  {
    AllFixedKeep(fixed, processes, s.links);
    ReportedLength(fixed + ByFilters(lists), reports, processes, s);
    forall i | 0 <= i < |lists|
      ensures IsReport(ByFilter(lists[i]), reports[|fixed| + i], AfterLists(lists, i, processes, s.links), s)
    {
      assert ByFilters(lists)[..i] == ByFilters(lists[..i]);
      RestReport(fixed + ByFilters(lists), fixed, ByFilters(lists), reports, processes, s, i, ByFilter(lists[i]));
    }
  }

  /** What a run shows: `lists` are the custom lists in the order in which they are handled. */
  ghost predicate Shows(
    r: Option<seq<seq<Row>>>, splitUid: bool, splitEnv: Option<string>, splitPids: seq<i32>, lists: seq<string>,
    processes: seq<ProcessInfo>, s: Setting)
  {
    var u, e, d := if splitUid then 1 else 0, if splitEnv.Some? then 1 else 0, if splitPids != [] then 1 else 0;
    && (r.Some? <==> forall input <- lists :: SplitterItems(input).Ok?)
    && (r.Some? ==>
          && |r.value| == u + e + d + |lists|
          && (splitUid ==> IsReport(ByUid, r.value[0], processes, s))
          && (splitEnv.Some? ==> IsReport(ByEnv(splitEnv.value), r.value[u], processes, s))
          && (splitPids != [] ==> IsReport(ByFilter(PidExpression(splitPids)), r.value[u + e], processes, s))
          && ListReports(r.value, u + e + d, lists, processes, s))
  }

  lemma {:induction false} FixedReports(
    reports: seq<seq<Row>>, splitUid: bool, splitEnv: Option<string>, splitPids: seq<i32>, rest: seq<Split>,
    processes: seq<ProcessInfo>, s: Setting)
    requires Reported(Fixed(splitUid, splitEnv, splitPids) + rest, reports, processes, s)
    ensures var u, e, d := if splitUid then 1 else 0, if splitEnv.Some? then 1 else 0, if splitPids != [] then 1 else 0;
            && |reports| == u + e + d + |rest|
            && (splitUid ==> IsReport(ByUid, reports[0], processes, s))
            && (splitEnv.Some? ==> IsReport(ByEnv(splitEnv.value), reports[u], processes, s))
            && (splitPids != [] ==> IsReport(ByFilter(PidExpression(splitPids)), reports[u + e], processes, s))
  {
    var u, e := if splitUid then 1 else 0, if splitEnv.Some? then 1 else 0;
    var fixed := Fixed(splitUid, splitEnv, splitPids);
    FixedAt(splitUid, splitEnv, splitPids);
    FixedIsFixed(splitUid, splitEnv, splitPids);
    ReportedLength(fixed + rest, reports, processes, s);
    if splitUid {
      FixedReport(fixed, rest, reports, processes, s, 0);
    }
    if splitEnv.Some? {
      FixedReport(fixed, rest, reports, processes, s, u);
    }
    if splitPids != [] {
      FixedReport(fixed, rest, reports, processes, s, u + e);
    }
  }

  lemma {:induction false} PlanAccepted(
    splitUid: bool, splitEnv: Option<string>, splitPids: seq<i32>, lists: seq<string>)
    ensures AllAccepted(Fixed(splitUid, splitEnv, splitPids) + ByFilters(lists))
       <==> forall input <- lists :: SplitterItems(input).Ok?
  {
    var fixed := Fixed(splitUid, splitEnv, splitPids);
    FixedIsFixed(splitUid, splitEnv, splitPids);
    FixedAccepted(fixed);
    AcceptedJoin(fixed, ByFilters(lists));
    ListsAccepted(lists);
  }

  lemma {:induction false} EndsShown(
    r: Option<seq<seq<Row>>>, splitUid: bool, splitEnv: Option<string>, splitPids: seq<i32>, splitCustom: seq<string>,
    processes: seq<ProcessInfo>, s: Setting)
    requires Ends(r, [], Plan(splitUid, splitEnv, splitPids, splitCustom), processes, s)
    ensures Shows(r, splitUid, splitEnv, splitPids, Reversed(splitCustom), processes, s)
  {
    var fixed, lists := Fixed(splitUid, splitEnv, splitPids), Reversed(splitCustom);
    PlanIsFixedAndCustom(splitUid, splitEnv, splitPids, splitCustom);
    CustomPlanIs(splitCustom);
    PlanAccepted(splitUid, splitEnv, splitPids, lists);
    assert [] + (fixed + ByFilters(lists)) == fixed + ByFilters(lists);
    if r.Some? {
      FixedAt(splitUid, splitEnv, splitPids);
      FixedIsFixed(splitUid, splitEnv, splitPids);
      FixedReports(r.value, splitUid, splitEnv, splitPids, ByFilters(lists), processes, s);
      AllListReports(fixed, lists, r.value, processes, s);
    }
  }

  /**
   `None` stands for the panic on a custom filter that is not valid. The custom lists are shown from the last one of
   `splitCustom` to the first one, after the reports by uid, by variable and by pids.
   */
  method ScanGroups(
    processes: seq<ProcessInfo>, tree: ProcessTree, splitUid: bool, splitEnv: Option<string>,
    splitPids: seq<i32>, splitCustom: seq<string>,
    username: u32 -> string, shown: Option<string> -> string, pageSize: nat)
    returns (r: Option<seq<seq<Row>>>)
    ensures Shows(r, splitUid, splitEnv, splitPids, Reversed(splitCustom), processes,
                  Setting(tree.Links(), username, shown, pageSize))
  {
    r := ScanPlan(processes, tree, splitUid, splitEnv, splitPids, splitCustom, username, shown, pageSize);
    EndsShown(r, splitUid, splitEnv, splitPids, splitCustom, processes,
              Setting(tree.Links(), username, shown, pageSize));
  }

  /** The `groups` command: the custom lists of the command line are reversed before the scan. */
  method Groups(
    processes: seq<ProcessInfo>, tree: ProcessTree, splitUid: bool, splitEnv: Option<string>,
    splitPids: seq<i32>, customLists: seq<string>,
    username: u32 -> string, shown: Option<string> -> string, pageSize: nat)
    returns (r: Option<seq<seq<Row>>>)
    ensures Shows(r, splitUid, splitEnv, splitPids, customLists, processes,
                  Setting(tree.Links(), username, shown, pageSize))
  {
    ReversedTwice(customLists);
    r := ScanGroups(processes, tree, splitUid, splitEnv, splitPids, Reversed(customLists), username, shown, pageSize);
  }

  /** Of the lists that the scan gets, the last one is handled first. */
  lemma {:induction false} LastListFirst(
    reports: seq<seq<Row>>, base: nat, splitCustom: seq<string>, processes: seq<ProcessInfo>, s: Setting, i: nat)
    requires ListReports(reports, base, Reversed(splitCustom), processes, s) && i < |splitCustom|
    ensures |reports| == base + |splitCustom|
    ensures IsReport(ByFilter(splitCustom[|splitCustom| - 1 - i]), reports[base + i],
                     AfterLists(Reversed(splitCustom), i, processes, s.links), s)
  {
    ReversedAt(splitCustom, i);
  }
}
