/** What the reports have to do with each other and with the total of a single scan. */
module Totals {
  import opened Wrappers
  import opened Decimal
  import opened Filters
  import opened Processes
  import opened Evaluation
  import opened Sequences
  import opened ProcessGroups
  import opened Accounting
  import opened Splitters
  import opened Reports
  import opened Memstats

  // ----- the names of the groups

  lemma {:induction false} UidsAttainable(uids: set<u32>)
    ensures Attainable(UidOf, uids)
  {
    forall uid <- uids ensures exists p: ProcessInfo :: UidOf(p) == uid && 1 in p.pfns {
      var p := Sample(uid, map[]);
      assert UidOf(p) == uid && 1 in p.pfns;
    }
  }

  /** A process with this user and this environment, and frame 1 in memory. */
  function Sample(uid: u32, environ: map<string, string>): ProcessInfo {
    ProcessInfo(Process(2, None, None, None, None), uid, environ, {1}, {}, {}, {}, {}, 4096, 4096, 0, 0, {})
  }

  /** The USS of the report by uid is exact for these users exactly when they have different names. */
  lemma {:induction false} UidUssExactIff(uids: set<u32>, username: u32 -> string, pageSize: nat)
    requires pageSize > 0
    ensures TitlesDiffer(uids, username)
       <==> forall processes | KeysAmong(processes, UidOf, uids) :: ReportIsExact(processes, UidOf, username, pageSize)
  {
    UidsAttainable(uids);
    UssExactIffNamesDistinct(uids, UidOf, username, pageSize);
  }

  lemma {:induction false} ValuesAttainable(variable: string, values: set<Option<string>>)
    ensures Attainable(EnvValue(variable), values)
  {
    forall value <- values ensures exists p: ProcessInfo :: EnvValue(variable)(p) == value && 1 in p.pfns {
      var p := Sample(0, match value case Some(text) => map[variable := text] case None => map[]);
      assert EnvValue(variable)(p) == value && 1 in p.pfns;
    }
  }

  /** The USS of the report by a variable is exact for these values exactly when they are shown differently. */
  lemma {:induction false} EnvUssExactIff(
    variable: string, values: set<Option<string>>, shown: Option<string> -> string, pageSize: nat)
    requires pageSize > 0
    ensures TitlesDiffer(values, shown)
       <==> forall processes | KeysAmong(processes, EnvValue(variable), values) ::
              ReportIsExact(processes, EnvValue(variable), shown, pageSize)
  {
    ValuesAttainable(variable, values);
    UssExactIffNamesDistinct(values, EnvValue(variable), shown, pageSize);
  }

  lemma {:induction false} SamplePages(processes: seq<ProcessInfo>, uid: u32)
    requires forall p <- processes :: p.pfns == {1}
    ensures AllOf(Class(processes, UidOf, uid), PfnsOf) <= {1}
  {
    forall p <- Class(processes, UidOf, uid) ensures PfnsOf(p) == {1} {
      SelectMember(processes, HasKey(UidOf, uid), p);
    }
  }

  /** Two users of one name with one common frame: each row shows a page of USS, and no page is of one group only. */
  lemma {:induction false} SharedUserName(name: string, pageSize: nat)
    ensures var processes := [Sample(1, map[]), Sample(2, map[])];
            var groups := GroupsBy(KeysOf(processes, UidOf), processes, UidOf, _ => name);
            && 1 in groups && RowOf(groups, 1, pageSize).memUss == pageSize
            && ReferencedOnce(PagesIn(groups, GroupPfns)) == {}
  {
    var p, q := Sample(1, map[]), Sample(2, map[]);
    var groups := GroupsBy(KeysOf([p, q], UidOf), [p, q], UidOf, _ => name);
    PairOfGroups(p, q, UidOf, _ => name, 1);
    SamplePages([p, q], 1);
    SamplePages([p, q], 2);
    SharedFrameRow(groups, 1, 2, 1, pageSize);
  }

  /** The groups of the report have different names. */
  ghost predicate NamesTellApart(split: Split, processes: seq<ProcessInfo>, s: Setting) {
    match split
    case ByUid => TitlesDiffer(KeysOf(processes, UidOf), s.username)
    case ByEnv(variable) => TitlesDiffer(KeysOf(processes, EnvValue(variable)), s.shown)
    case ByFilter(_) => true
  }

  // ----- reports against the total of a single scan

  /** The groups of a key together have the pages of the processes. */
  lemma {:induction false} GroupsCover<K>(
    keys: set<K>, processes: seq<ProcessInfo>, key: ProcessInfo -> K, title: K -> string)
    requires KeysOf(processes, key) <= keys
    ensures Union(PagesIn(GroupsBy(keys, processes, key, title), GroupPfns)) == AllOf(processes, PfnsOf)
    ensures Union(PagesIn(GroupsBy(keys, processes, key, title), GroupSwap)) == AllOf(processes, SwapPagesOf)
  {
    ClassesCover(keys, processes, key, PfnsOf);
    ClassesCover(keys, processes, key, SwapPagesOf);
    assert PagesIn(GroupsBy(keys, processes, key, title), GroupPfns) == ClassPages(keys, processes, key, PfnsOf);
    assert PagesIn(GroupsBy(keys, processes, key, title), GroupSwap) == ClassPages(keys, processes, key, SwapPagesOf);
  }

  /** The pages that the groups of a split have together. */
  ghost function SplitPages<X>(
    split: Split, processes: seq<ProcessInfo>, s: Setting, field: ProcessGroupInfo -> set<X>): set<X>
    requires Accepted(split)
  {
    match split
    case ByUid => Union(PagesIn(GroupsBy(KeysOf(processes, UidOf), processes, UidOf, s.username), field))
    case ByEnv(variable) =>
      var key := EnvValue(variable);
      Union(PagesIn(GroupsBy(KeysOf(processes, key), processes, key, s.shown), field))
    case ByFilter(input) =>
      var items := SplitterItems(input).value;
      Union(PagesIn(CustomGroups(items.texts, items.filters, processes, s.links), field))
  }

  lemma {:induction false} CustomKeys(
    names: seq<string>, filters: seq<Filter>, processes: seq<ProcessInfo>, links: set<Edge>)
    requires |names| == |filters|
    ensures KeysOf(processes, GroupName(names, filters, links)) <= CustomNames(names)
  {
  }

  /** They are the pages of the processes that are in some group. */
  lemma {:induction false} SplitCovers(split: Split, processes: seq<ProcessInfo>, s: Setting)
    requires Accepted(split)
    ensures SplitPages(split, processes, s, GroupPfns) == AllOf(Survivors(split, processes, s.links), PfnsOf)
    ensures SplitPages(split, processes, s, GroupSwap) == AllOf(Survivors(split, processes, s.links), SwapPagesOf)
  {
    match split
    case ByUid => GroupsCover(KeysOf(processes, UidOf), processes, UidOf, s.username);
    case ByEnv(variable) =>
      var key := EnvValue(variable);
      GroupsCover(KeysOf(processes, key), processes, key, s.shown);
    case ByFilter(input) =>
      var items := SplitterItems(input).value;
      ListNamesMatch(input);
      var kept := Kept(items.texts, items.filters, processes, s.links);
      CustomKeys(items.texts, items.filters, kept, s.links);
      GroupsCover(CustomNames(items.texts), kept, GroupName(items.texts, items.filters, s.links), Itself);
  }

  /** In a run without repeated texts, the groups of each report have exactly the pages that a single scan finds. */
  lemma {:induction false} RunCovers(plan: seq<Split>, processes: seq<ProcessInfo>, s: Setting, i: nat)
    requires (forall split <- plan :: NeverRepeats(split)) && i < |plan| && Accepted(plan[i])
    ensures var here := AllSurvivors(plan[..i], processes, s.links);
            && SplitPages(plan[i], here, s, GroupPfns) == AllOf(processes, PfnsOf)
            && SplitPages(plan[i], here, s, GroupSwap) == AllOf(processes, SwapPagesOf)
  {
    NothingLost(plan[..i], processes, s.links);
    SplitCovers(plan[i], processes, s);
    NothingLost([plan[i]], processes, s.links);
    assert [plan[i]][..0] == [];
    assert AllSurvivors([], processes, s.links) == processes;
  }

  lemma {:induction false} KeyReportBounds<K(!new)>(
    rows: seq<Row>, keys: set<K>, processes: seq<ProcessInfo>, key: ProcessInfo -> K, title: K -> string, pageSize: nat)
    requires KeysOf(processes, key) <= keys && IsTable(rows, GroupsBy(keys, processes, key, title), pageSize)
    ensures |AllOf(processes, PfnsOf)| * pageSize <= Column(rows, MemRssCell)
    ensures |AllOf(processes, SwapPagesOf)| * pageSize <= Column(rows, SwapRssCell)
    ensures TitlesDiffer(keys, title) ==> Column(rows, MemUssCell) <= |AllOf(processes, PfnsOf)| * pageSize
    ensures TitlesDiffer(keys, title) ==> Column(rows, SwapUssCell) <= |AllOf(processes, SwapPagesOf)| * pageSize
  {
    GroupsCover(keys, processes, key, title);
    RssBound(rows, GroupsBy(keys, processes, key, title), pageSize);
    if TitlesDiffer(keys, title) {
      ReportBrackets(rows, GroupsBy(keys, processes, key, title), pageSize);
    }
  }

  /**
   The pages of the processes in some group are at most the summed RSS of the report, and at least the summed USS if
   the names tell the groups apart; in memory and in swap.
   */
  lemma {:induction false} ReportBounds(split: Split, rows: seq<Row>, processes: seq<ProcessInfo>, s: Setting)
    requires IsReport(split, rows, processes, s)
    ensures var left := Survivors(split, processes, s.links);
            && |AllOf(left, PfnsOf)| * s.pageSize <= Column(rows, MemRssCell)
            && |AllOf(left, SwapPagesOf)| * s.pageSize <= Column(rows, SwapRssCell)
            && (NamesTellApart(split, processes, s) ==>
                  && Column(rows, MemUssCell) <= |AllOf(left, PfnsOf)| * s.pageSize
                  && Column(rows, SwapUssCell) <= |AllOf(left, SwapPagesOf)| * s.pageSize)
  {
    match split
    case ByUid => KeyReportBounds(rows, KeysOf(processes, UidOf), processes, UidOf, s.username, s.pageSize);
    case ByEnv(variable) =>
      var key := EnvValue(variable);
      KeyReportBounds(rows, KeysOf(processes, key), processes, key, s.shown, s.pageSize);
    case ByFilter(input) =>
      var items := SplitterItems(input).value;
      ListNamesMatch(input);
      var kept := Kept(items.texts, items.filters, processes, s.links);
      CustomKeys(items.texts, items.filters, kept, s.links);
      KeyReportBounds(rows, CustomNames(items.texts), kept,
                      GroupName(items.texts, items.filters, s.links), Itself, s.pageSize);
  }

  /**
   Report `i` of a run without repeated texts: the total of `memstats single` on the same processes is at most the
   summed RSS, and at least the summed USS if the names tell the groups apart.
   */
  lemma {:induction false} ReportAgainstSingle(
    plan: seq<Split>, reports: seq<seq<Row>>, processes: seq<ProcessInfo>, s: Setting, i: nat)
    requires Reported(plan, reports, processes, s) && i < |plan| == |reports|
    requires forall split <- plan :: NeverRepeats(split)
    ensures |AllOf(processes, PfnsOf)| * s.pageSize <= Column(reports[i], MemRssCell)
    ensures |AllOf(processes, SwapPagesOf)| * s.pageSize <= Column(reports[i], SwapRssCell)
    ensures NamesTellApart(plan[i], processes, s) ==>
      Column(reports[i], MemUssCell) <= |AllOf(processes, PfnsOf)| * s.pageSize
    ensures NamesTellApart(plan[i], processes, s) ==>
      Column(reports[i], SwapUssCell) <= |AllOf(processes, SwapPagesOf)| * s.pageSize
  {
    ReportedAt(plan, reports, processes, s, i);
    NothingLost(plan[..i], processes, s.links);
    NothingLost([plan[i]], processes, s.links);
    assert [plan[i]][..0] == [];
    assert AllSurvivors([], processes, s.links) == processes;
    ReportBounds(plan[i], reports[i], processes, s);
  }

  // ----- one filter instead of several

  lemma {:induction false} GroupsBySame<K>(
    keys: set<K>, processes: seq<ProcessInfo>, f: ProcessInfo -> K, g: ProcessInfo -> K, title: K -> string)
    requires forall p <- processes :: f(p) == g(p)
    ensures GroupsBy(keys, processes, f, title) == GroupsBy(keys, processes, g, title)
  {
    forall k <- keys ensures Class(processes, f, k) == Class(processes, g, k) {
      SelectSame(processes, HasKey(f, k), HasKey(g, k));
    }
  }

  /** Where the groups of a list go when its filters become the children of one `or`. */
  function Joined(text: string): string -> string {
    (n: string) => if n == OTHER then OTHER else text
  }

  lemma {:induction false} OrFirstMatch(filters: seq<Filter>, p: Process, links: set<Edge>)
    ensures FirstMatch([Or(filters)], p, links) == if FirstMatch(filters, p, links) < |filters| then 0 else 1
  {
    var k := FirstMatch(filters, p, links);
    if k < |filters| {
      assert filters[k] in filters;
      assert Eval(Or(filters), p, links);
    } else {
      assert !Eval(Or(filters), p, links);
    }
  }

  lemma {:induction false} JoinedKeys(names: seq<string>, text: string)
    requires names != [] && OTHER !in names
    ensures Image(CustomNames(names), Joined(text)) == {text, OTHER}
  {
    var keys := CustomNames(names);
    assert names[0] in keys && OTHER in keys;
    assert Joined(text)(names[0]) == text && Joined(text)(OTHER) == OTHER;
  }

  lemma {:induction false} JoinedName(
    names: seq<string>, filters: seq<Filter>, text: string, p: ProcessInfo, links: set<Edge>)
    requires |names| == |filters| && OTHER !in names
    ensures GroupName([text], [Or(filters)], links)(p) == Then(GroupName(names, filters, links), Joined(text))(p)
  {
    OrFirstMatch(filters, p.process, links);
  }

  /** The groups by this key, all of them but "Other" merged into one. */
  function JoinedGroups(
    names: seq<string>, key: ProcessInfo -> string, text: string, processes: seq<ProcessInfo>)
    : map<string, ProcessGroupInfo>
  {
    GroupsBy(Image(CustomNames(names), Joined(text)), processes, Then(key, Joined(text)), Itself)
  }

  /** The split by one `or` is the split by its children with the groups of the children merged. */
  lemma {:induction false} OrMergesGroups(
    names: seq<string>, filters: seq<Filter>, text: string, processes: seq<ProcessInfo>, links: set<Edge>)
    requires NamesMatch(names, filters) && names != []
    ensures CustomGroups([text], [Or(filters)], processes, links)
         == JoinedGroups(names, GroupName(names, filters, links), text, processes)
  {
    OtherIsNoName(names, filters);
    DistinctNamesKeepAll([text], [Or(filters)], processes, links);
    JoinedKeys(names, text);
    assert CustomNames([text]) == {text, OTHER};
    forall p <- processes
      ensures GroupName([text], [Or(filters)], links)(p) == Then(GroupName(names, filters, links), Joined(text))(p)
    {
      JoinedName(names, filters, text, p, links);
    }
    GroupsBySame({text, OTHER}, processes, GroupName([text], [Or(filters)], links),
                 Then(GroupName(names, filters, links), Joined(text)), Itself);
  }

  /** With distinct texts the groups of a list are those of the key that names them. */
  lemma {:induction false} CustomIsByName(
    names: seq<string>, filters: seq<Filter>, processes: seq<ProcessInfo>, links: set<Edge>)
    requires |names| == |filters| && Distinct(names)
    ensures var groups := CustomGroups(names, filters, processes, links);
            && groups == GroupsBy(CustomNames(names), processes, GroupName(names, filters, links), Itself)
            && DistinctNames(groups)
  {
    DistinctNamesKeepAll(names, filters, processes, links);
  }

  /**
   Replacing a list of filters by the `or` of them: the group of the `or` has at most the RSS of their groups together
   and at least their USS.
   */
  lemma {:induction false} OrAgainstChildren(
    rows: seq<Row>, order: seq<string>, names: seq<string>, filters: seq<Filter>, text: string,
    processes: seq<ProcessInfo>, links: set<Edge>, pageSize: nat)
    requires NamesMatch(names, filters) && Distinct(names) && names != [] && IsTextOf(text, Or(filters))
    requires Shows(rows, CustomGroups(names, filters, processes, links), order, pageSize)
    ensures var groups := CustomGroups([text], [Or(filters)], processes, links);
            && text in groups
            && RssAtMost(RowOf(groups, text, pageSize), rows, order, Joined(text), text)
            && UssAtLeast(RowOf(groups, text, pageSize), rows, order, Joined(text), text)
  {
    var key := GroupName(names, filters, links);
    OtherIsNoName(names, filters);
    CustomIsByName(names, filters, processes, links);
    CustomKeys(names, filters, processes, links);
    OrMergesGroups(names, filters, text, processes, links);
    NamedAgainstJoined(rows, order, names, key, text, processes, pageSize);
  }

  lemma {:induction false} NamedAgainstJoined(
    rows: seq<Row>, order: seq<string>, names: seq<string>, key: ProcessInfo -> string, text: string,
    processes: seq<ProcessInfo>, pageSize: nat)
    requires OTHER !in names && names != [] && KeysOf(processes, key) <= CustomNames(names)
    requires var fine := GroupsBy(CustomNames(names), processes, key, Itself);
             Shows(rows, fine, order, pageSize) && DistinctNames(fine)
    ensures var groups := JoinedGroups(names, key, text, processes);
            && text in groups
            && RssAtMost(RowOf(groups, text, pageSize), rows, order, Joined(text), text)
            && UssAtLeast(RowOf(groups, text, pageSize), rows, order, Joined(text), text)
  {
    JoinedKeys(names, text);
    CoarserReport(rows, CustomNames(names), processes, key, Itself, order, Joined(text), Itself, text, pageSize);
  }
}
