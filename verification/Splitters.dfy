/** The three ways of splitting processes into groups, and the report made of the groups. */
module Splitters {
  import opened Wrappers
  import opened Decimal
  import opened Filters
  import opened Grammar
  import opened Printing
  import opened Processes
  import opened Evaluation
  import opened Sequences
  import opened ProcessGroups

  // ----- taking processes out of a list

  method ExtractKey<K(==)>(processes: seq<ProcessInfo>, key: ProcessInfo -> K, k: K)
    returns (taken: seq<ProcessInfo>, left: seq<ProcessInfo>)
    ensures taken == Class(processes, key, k)
    ensures left == Select(processes, LacksKey(key, k))
  {
    taken, left := [], [];
    for i := 0 to |processes|
      invariant taken == Class(processes[..i], key, k)
      invariant left == Select(processes[..i], LacksKey(key, k))
    {
      SelectNext(processes, i, HasKey(key, k));
      SelectNext(processes, i, LacksKey(key, k));
      if key(processes[i]) == k {
        taken := taken + [processes[i]];
      } else {
        left := left + [processes[i]];
      }
    }
    assert processes[..|processes|] == processes;
  }

  /** Processes whose key is still to be handled. */
  function KeyIn<K(==)>(key: ProcessInfo -> K, keys: set<K>): ProcessInfo -> bool {
    (p: ProcessInfo) => key(p) in keys
  }

  lemma {:induction false} ExtractOneKey<K>(processes: seq<ProcessInfo>, key: ProcessInfo -> K, todo: set<K>, k: K)
    requires k in todo
    ensures Class(Select(processes, KeyIn(key, todo)), key, k) == Class(processes, key, k)
    ensures Select(Select(processes, KeyIn(key, todo)), LacksKey(key, k))
         == Select(processes, KeyIn(key, todo - {k}))
  {
    SelectTwice(processes, KeyIn(key, todo), HasKey(key, k), HasKey(key, k));
    SelectTwice(processes, KeyIn(key, todo), LacksKey(key, k), KeyIn(key, todo - {k}));
  }

  lemma {:induction false} AddGroup<K>(
    keys: set<K>, processes: seq<ProcessInfo>, key: ProcessInfo -> K, title: K -> string, k: K)
    ensures GroupsBy(keys, processes, key, title)[k := GroupOf(Class(processes, key, k), title(k))]
         == GroupsBy(keys + {k}, processes, key, title)
  {
  }

  /** With the keys `todo` still to be handled: who is left, and the groups made so far. */
  ghost predicate Grouping<K>(
    todo: set<K>, left: seq<ProcessInfo>, groups: map<K, ProcessGroupInfo>,
    processes: seq<ProcessInfo>, key: ProcessInfo -> K, title: K -> string)
  {
    && todo <= KeysOf(processes, key)
    && left == Select(processes, KeyIn(key, todo))
    && groups == GroupsBy(KeysOf(processes, key) - todo, processes, key, title)
  }

  lemma {:induction false} GroupingStep<K>(
    todo: set<K>, left: seq<ProcessInfo>, groups: map<K, ProcessGroupInfo>,
    processes: seq<ProcessInfo>, key: ProcessInfo -> K, title: K -> string, k: K)
    requires Grouping(todo, left, groups, processes, key, title) && k in todo
    ensures Grouping(todo - {k}, Select(left, LacksKey(key, k)),
                     groups[k := GroupOf(Class(left, key, k), title(k))], processes, key, title)
  {
    var keys := KeysOf(processes, key);
    ExtractOneKey(processes, key, todo, k);
    AddGroup(keys - todo, processes, key, title, k);
    assert keys - (todo - {k}) == keys - todo + {k};
  }

  /** The loop of the uid and environment splitters, over a set of keys in any order. */
  method GroupByKey<K(==)>(processes: seq<ProcessInfo>, key: ProcessInfo -> K, title: K -> string)
    returns (groups: map<K, ProcessGroupInfo>)
    ensures groups == GroupsBy(KeysOf(processes, key), processes, key, title)
  {
    var todo := KeysOf(processes, key);
    var left := processes;
    groups := map[];
    EverybodyHasKey(processes, key);
    while todo != {}
      invariant Grouping(todo, left, groups, processes, key, title)
    {
      var k :| k in todo;
      GroupingStep(todo, left, groups, processes, key, title, k);
      var taken;
      taken, left := ExtractKey(left, key, k);
      var g := GetProcessesGroupInfo(taken, title(k));
      groups := groups[k := g];
      todo := todo - {k};
    }
    NobodyLeft(processes, key);
    assert left == [];
  }

  lemma {:induction false} EverybodyHasKey<K>(processes: seq<ProcessInfo>, key: ProcessInfo -> K)
    ensures Select(processes, KeyIn(key, KeysOf(processes, key))) == processes
  {
    SelectEverything(processes);
    SelectSame(processes, KeyIn(key, KeysOf(processes, key)), _ => true);
  }

  lemma {:induction false} NobodyLeft<K>(processes: seq<ProcessInfo>, key: ProcessInfo -> K)
    ensures Select(processes, KeyIn(key, {})) == []
  {
    if processes != [] {
      NobodyLeft(processes[..|processes| - 1], key);
    }
  }

  // ----- putting groups back into a list

  /** The groups already emptied, `todo` being those that are not. */
  function Emptied<K(==)>(groups: map<K, ProcessGroupInfo>, todo: set<K>): map<K, ProcessGroupInfo> {
    map k | k in groups && k !in todo :: groups[k]
  }

  /** A hash map gives its groups in any order. */
  method CollectProcesses<K(==, !new)>(groups: map<K, ProcessGroupInfo>) returns (processes: seq<ProcessInfo>)
    ensures Collected(processes, groups)
  {
    var todo := groups.Keys;
    processes := [];
    ghost var order: seq<K> := [];
    while todo != {}
      invariant todo <= groups.Keys
      invariant CollectedBy(processes, Emptied(groups, todo), order)
    {
      var k :| k in todo;
      CollectOne(groups, processes, order, todo, k);
      processes := processes + groups[k].processes;
      todo := todo - {k};
      order := order + [k];
    }
    assert Emptied(groups, todo) == groups;
  }

  lemma {:induction false} FlattenSame<K>(
    a: map<K, ProcessGroupInfo>, b: map<K, ProcessGroupInfo>, order: seq<K>)
    requires forall k <- order :: k in a && k in b && a[k] == b[k]
    ensures Flatten(a, order) == Flatten(b, order)
  {
    if order != [] {
      FlattenSame(a, b, order[..|order| - 1]);
    }
  }

  /** One more group is emptied. */
  lemma {:induction false} CollectOne<K>(
    groups: map<K, ProcessGroupInfo>, processes: seq<ProcessInfo>, order: seq<K>, todo: set<K>, k: K)
    requires k in todo && todo <= groups.Keys
    requires CollectedBy(processes, Emptied(groups, todo), order)
    ensures CollectedBy(processes + groups[k].processes, Emptied(groups, todo - {k}), order + [k])
  {
    var done, next := Emptied(groups, todo), Emptied(groups, todo - {k});
    assert next.Keys == done.Keys + {k};
    OrderingPush(order, done.Keys, k);
    FlattenSame(done, next, order);
    assert (order + [k])[..|order|] == order;
  }

  // ----- splitting by uid

  function UidOf(p: ProcessInfo): u32 { p.uid }

  class ProcessSplitterUid {
    var groups: map<u32, ProcessGroupInfo>

    constructor ()
      ensures groups == map[]
    {
      groups := map[];
    }

    /** `username` stands for the lookup of user names, with the uid in decimal for an unknown user. */
    method Split(processes: seq<ProcessInfo>, username: u32 -> string)
      modifies this
      ensures groups == old(groups) + GroupsBy(KeysOf(processes, UidOf), processes, UidOf, username)
    {
      var found := GroupByKey(processes, UidOf, username);
      groups := groups + found;
    }

    /** A tree map gives its groups in the order of the uids. */
    method Collect() returns (processes: seq<ProcessInfo>)
      ensures CollectedByUid(processes, groups)
    {
      var todo := groups.Keys;
      processes := [];
      ghost var order: seq<u32> := [];
      while todo != {}
        invariant todo <= groups.Keys
        invariant CollectedBy(processes, Emptied(groups, todo), order)
        invariant Ascending(order)
        invariant forall i, k | 0 <= i < |order| && k in todo :: order[i] < k
      {
        var k := Least(todo);
        CollectOne(groups, processes, order, todo, k);
        processes := processes + groups[k].processes;
        todo := todo - {k};
        order := order + [k];
      }
      assert Emptied(groups, todo) == groups;
    }
  }

  ghost predicate Ascending(order: seq<u32>) {
    forall i, j | 0 <= i < j < |order| :: order[i] < order[j]
  }

  ghost predicate CollectedByUid(processes: seq<ProcessInfo>, groups: map<u32, ProcessGroupInfo>) {
    exists order :: CollectedBy(processes, groups, order) && Ascending(order)
  }

  /** The processes collected after a split by uid are sorted by uid. */
  lemma {:induction false} CollectedAreSorted(
    collected: seq<ProcessInfo>, processes: seq<ProcessInfo>, username: u32 -> string)
    requires CollectedByUid(collected, GroupsBy(KeysOf(processes, UidOf), processes, UidOf, username))
    ensures forall i, j | 0 <= i < j < |collected| :: collected[i].uid <= collected[j].uid
  {
    var groups := GroupsBy(KeysOf(processes, UidOf), processes, UidOf, username);
    forall k: u32, p | k in groups && p in groups[k].processes ensures p.uid == k {
      SelectMember(processes, HasKey(UidOf, k), p);
    }
    GroupsAreSorted(collected, groups);
  }

  lemma {:induction false} GroupsAreSorted(collected: seq<ProcessInfo>, groups: map<u32, ProcessGroupInfo>)
    requires CollectedByUid(collected, groups)
    requires forall k: u32, p | k in groups && p in groups[k].processes :: p.uid == k
    ensures forall i, j | 0 <= i < j < |collected| :: collected[i].uid <= collected[j].uid
  {
    var order: seq<u32> :| CollectedBy(collected, groups, order) && Ascending(order);
    FlattenIsSorted(groups, order);
  }

  lemma {:induction false} FlattenIsSorted(groups: map<u32, ProcessGroupInfo>, order: seq<u32>)
    requires Ascending(order) && forall k <- order :: k in groups
    requires forall k: u32, p | k in groups && p in groups[k].processes :: p.uid == k
    ensures var all := Flatten(groups, order);
            && (forall i, j | 0 <= i < j < |all| :: all[i].uid <= all[j].uid)
            && forall p <- all :: p.uid in order
  {
    if order != [] {
      var front, last := order[..|order| - 1], order[|order| - 1];
      FlattenIsSorted(groups, front);
      var all, more := Flatten(groups, front), groups[last].processes;
      forall i | 0 <= i < |all| ensures all[i].uid < last {
        assert all[i] in all && all[i].uid in front;
      }
      forall i | 0 <= i < |more| ensures more[i].uid == last {
        assert more[i] in more;
      }
      assert Flatten(groups, order) == all + more;
      forall p <- all + more ensures p.uid in order {
        assert p in all || p in more;
      }
    }
  }

  method Least(keys: set<u32>) returns (k: u32)
    requires keys != {}
    ensures k in keys && forall j <- keys :: k <= j
  {
    k :| k in keys;
    var others := keys - {k};
    while others != {}
      invariant others <= keys && k in keys
      invariant forall j <- keys :: j in others || k <= j
    {
      var j :| j in others;
      if j < k {
        k := j;
      }
      others := others - {j};
    }
  }

  // ----- splitting by an environment variable

  function EnvValue(variable: string): ProcessInfo -> Option<string> {
    (p: ProcessInfo) => if variable in p.environ then Some(p.environ[variable]) else None
  }

  class ProcessSplitterEnvVariable {
    var variable: string
    var groups: map<Option<string>, ProcessGroupInfo>

    constructor (variable: string)
      ensures this.variable == variable && groups == map[]
    {
      this.variable := variable;
      groups := map[];
    }

    /** `shown` stands for the debug formatting of the value. */
    method Split(processes: seq<ProcessInfo>, shown: Option<string> -> string)
      modifies this
      ensures variable == old(variable)
      ensures var key := EnvValue(variable);
              groups == GroupsBy(KeysOf(processes, key), processes, key, shown)
    {
      groups := GroupByKey(processes, EnvValue(variable), shown);
    }

    method Collect() returns (processes: seq<ProcessInfo>)
      ensures Collected(processes, groups)
    {
      processes := CollectProcesses(groups);
    }
  }

  // ----- splitting by filters

  const OTHER := "Other"

  predicate IsAscii(s: string) {
    forall i | 0 <= i < |s| :: s[i] as int < 128
  }

  function SplitterItems(input: string): Result<Items, ParseError> {
    if !IsAscii(input) then Err(NotAscii) else ParseList(input)
  }

  /** The first filter that accepts the process, or their number when there is none. */
  ghost function FirstMatch(filters: seq<Filter>, p: Process, links: set<Edge>): (k: nat)
    ensures k <= |filters|
    ensures k < |filters| ==> Eval(filters[k], p, links)
    ensures forall j | 0 <= j < k :: !Eval(filters[j], p, links)
  {
    if filters == [] then 0
    else if Eval(filters[0], p, links) then 0
    else 1 + FirstMatch(filters[1..], p, links)
  }

  ghost function At(filters: seq<Filter>, links: set<Edge>, k: nat): ProcessInfo -> bool {
    (p: ProcessInfo) => FirstMatch(filters, p.process, links) == k
  }

  ghost function AtLeast(filters: seq<Filter>, links: set<Edge>, k: nat): ProcessInfo -> bool {
    (p: ProcessInfo) => FirstMatch(filters, p.process, links) >= k
  }

  ghost function Accepts(filter: Filter, links: set<Edge>): ProcessInfo -> bool {
    (p: ProcessInfo) => Eval(filter, p.process, links)
  }

  ghost function Refuses(filter: Filter, links: set<Edge>): ProcessInfo -> bool {
    (p: ProcessInfo) => !Eval(filter, p.process, links)
  }

  ghost predicate IsLast(names: seq<string>, k: nat)
    requires k < |names|
  {
    names[k] !in names[k + 1..]
  }

  /** The name of the group the process is put in. */
  ghost function GroupName(names: seq<string>, filters: seq<Filter>, links: set<Edge>): ProcessInfo -> string {
    (p: ProcessInfo) => var k := FirstMatch(filters, p.process, links);
         if k < |names| then names[k] else OTHER
  }

  /** The group of the process is not replaced later by one with the same name. */
  ghost function IsKept(names: seq<string>, filters: seq<Filter>, links: set<Edge>): ProcessInfo -> bool {
    (p: ProcessInfo) => var k := FirstMatch(filters, p.process, links);
         k < |names| ==> IsLast(names, k)
  }

  ghost function Kept(names: seq<string>, filters: seq<Filter>, processes: seq<ProcessInfo>, links: set<Edge>)
    : seq<ProcessInfo>
  {
    Select(processes, IsKept(names, filters, links))
  }

  function Itself(name: string): string { name }

  /** The names of the groups of a custom split. */
  function CustomNames(names: seq<string>): set<string> {
    (set n | n in names) + {OTHER}
  }

  /** All that a custom split inserts in its groups. */
  ghost function CustomGroups(
    names: seq<string>, filters: seq<Filter>, processes: seq<ProcessInfo>, links: set<Edge>)
    : map<string, ProcessGroupInfo>
  {
    GroupsBy(CustomNames(names), Kept(names, filters, processes, links),
             GroupName(names, filters, links), Itself)
  }

  /** The whole of `name` reads as `filter`. */
  ghost predicate IsTextOf(name: string, filter: Filter) {
    Parse(name) == Ok((filter, |name|))
  }

  /** Each name is the text of its filter, and of nothing else. */
  ghost predicate NamesMatch(names: seq<string>, filters: seq<Filter>) {
    && |names| == |filters|
    && (names != [] ==> IsTextOf(names[0], filters[0]) && NamesMatch(names[1..], filters[1..]))
  }

  lemma {:induction false} NameMatches(names: seq<string>, filters: seq<Filter>, k: nat)
    requires NamesMatch(names, filters) && k < |names|
    ensures IsTextOf(names[k], filters[k])
  {
    if k > 0 {
      NameMatches(names[1..], filters[1..], k - 1);
    }
  }

  lemma {:induction false} EatenIsText(text: string, filter: Filter, ate: nat)
    requires Parse(text) == Ok((filter, ate))
    ensures IsTextOf(text[..ate], filter)
  {
    Locality(text, text[..ate], filter, ate);
  }

  lemma {:induction false} NamesCons(first: Items, rest: Items)
    requires |first.filters| == 1 == |first.texts| && IsTextOf(first.texts[0], first.filters[0])
    requires NamesMatch(rest.texts, rest.filters)
    ensures NamesMatch(first.texts + rest.texts, first.filters + rest.filters)
  {
    assert (first.texts + rest.texts)[1..] == rest.texts;
    assert (first.filters + rest.filters)[1..] == rest.filters;
  }

  /** Each filter of a list is read from the text kept for it. */
  lemma {:induction false} ListNamesMatch(input: string)
    ensures ParseList(input).Ok? ==> NamesMatch(ParseList(input).value.texts, ParseList(input).value.filters)
    decreases |input|
  {
    if ParseList(input).Ok? {
      var (f, ate) := Parse(input).value;
      var first := Items([f], [input[..ate]]);
      UnfoldList(input, f, ate);
      EatenIsText(input, f, ate);
      if ate < |input| {
        ListNamesMatch(input[ate + 1..]);
        NamesCons(first, ParseList(input[ate + 1..]).value);
      }
    }
  }

  /** The texts, with one character skipped between neighbours, are the whole input. */
  ghost predicate Accounts(input: string, texts: seq<string>) {
    && texts != []
    && texts[0] <= input
    && if |texts| == 1 then texts[0] == input
       else |texts[0]| < |input| && Accounts(input[|texts[0]| + 1..], texts[1..])
  }

  lemma {:induction false} AccountsCons(input: string, n: nat, rest: seq<string>)
    requires n < |input| && Accounts(input[n + 1..], rest)
    ensures Accounts(input, [input[..n]] + rest)
  {
    assert ([input[..n]] + rest)[1..] == rest;
  }

  lemma {:induction false} ListAccounts(input: string)
    ensures ParseList(input).Ok? ==> Accounts(input, ParseList(input).value.texts)
    decreases |input|
  {
    if ParseList(input).Ok? {
      var (f, ate) := Parse(input).value;
      UnfoldList(input, f, ate);
      if ate < |input| {
        ListAccounts(input[ate + 1..]);
        AccountsCons(input, ate, ParseList(input[ate + 1..]).value.texts);
      }
    }
  }

  lemma {:induction false} HeadParses(input: string, t: string, f: Filter)
    requires IsTextOf(t, f) && t <= input
    ensures ParseList(input) == if |t| == |input| then Ok(Items([f], [t]))
                                else Resume(Items([f], [t]), ParseList(input[|t| + 1..]))
  {
    Locality(t, input, f, |t|);
    assert input[..|t|] == t;
    UnfoldList(input, f, |t|);
  }

  lemma {:induction false} AccountedParses(input: string, items: Items)
    requires Accounts(input, items.texts) && NamesMatch(items.texts, items.filters)
    ensures ParseList(input) == Ok(items)
    decreases |items.texts|
  {
    var t := items.texts[0];
    HeadParses(input, t, items.filters[0]);
    HeadAndRest(items);
    if |items.texts| > 1 {
      AccountedParses(input[|t| + 1..], Items(items.filters[1..], items.texts[1..]));
    }
  }

  lemma {:induction false} HeadAndRest(items: Items)
    requires |items.texts| == |items.filters| > 0
    ensures var first := Items([items.filters[0]], [items.texts[0]]);
            if |items.texts| == 1 then items == first
            else Resume(first, Ok(Items(items.filters[1..], items.texts[1..]))) == Ok(items)
  {
    assert [items.filters[0]] + items.filters[1..] == items.filters;
    assert [items.texts[0]] + items.texts[1..] == items.texts;
  }

  /** Exactly what `new` accepts: the kept texts rebuild the input, and each reads alone as its own filter. */
  lemma {:induction false} InputAccounted(input: string, items: Items)
    ensures SplitterItems(input) == Ok(items)
       <==> && (forall i | 0 <= i < |input| :: input[i] as int < 128)
            && Accounts(input, items.texts) && NamesMatch(items.texts, items.filters)
  {
    if SplitterItems(input) == Ok(items) {
      ListAccounts(input);
      ListNamesMatch(input);
    }
    if Accounts(input, items.texts) && NamesMatch(items.texts, items.filters) {
      AccountedParses(input, items);
    }
  }

  lemma {:induction false} OtherIsNoText(filter: Filter)
    ensures !IsTextOf(OTHER, filter)
  {
    if IsTextOf(OTHER, filter) {
      EatenIsBalanced(OTHER, filter, |OTHER|);
    }
  }

  lemma {:induction false} OtherIsNoName(names: seq<string>, filters: seq<Filter>)
    requires NamesMatch(names, filters)
    ensures OTHER !in names
  {
    forall k | 0 <= k < |names| ensures names[k] != OTHER {
      NameMatches(names, filters, k);
      OtherIsNoText(filters[k]);
    }
  }

  /** A group whose name does not come back holds the processes its filter is the first to accept. */
  lemma {:induction false} ClassIsAt(
    names: seq<string>, filters: seq<Filter>, processes: seq<ProcessInfo>, links: set<Edge>, k: nat)
    requires |names| == |filters| && OTHER !in names && k <= |names| && (k < |names| ==> IsLast(names, k))
    ensures Class(Kept(names, filters, processes, links), GroupName(names, filters, links),
                  if k < |names| then names[k] else OTHER)
         == Select(processes, At(filters, links, k))
  {
    var n := if k < |names| then names[k] else OTHER;
    forall p <- processes
      ensures At(filters, links, k)(p)
           == (IsKept(names, filters, links)(p) && HasKey(GroupName(names, filters, links), n)(p))
    {
      var j := FirstMatch(filters, p.process, links);
      if j < |names| && k < |names| && names[j] == names[k] && j != k {
        if j < k {
          assert names[j + 1..][k - j - 1] == names[k];
        }
        assert j > k ==> names[k + 1..][j - k - 1] == names[j];
      }
    }
    SelectTwice(processes, IsKept(names, filters, links), HasKey(GroupName(names, filters, links), n),
                At(filters, links, k));
  }

  method ExtractIf(filter: Filter, tree: ProcessTree, processes: seq<ProcessInfo>)
    returns (taken: seq<ProcessInfo>, left: seq<ProcessInfo>)
    ensures taken == Select(processes, Accepts(filter, tree.Links()))
    ensures left == Select(processes, Refuses(filter, tree.Links()))
  {
    taken, left := [], [];
    ghost var links := tree.Links();
    for i := 0 to |processes|
      invariant taken == Select(processes[..i], Accepts(filter, links))
      invariant left == Select(processes[..i], Refuses(filter, links))
    {
      SelectNext(processes, i, Accepts(filter, links));
      SelectNext(processes, i, Refuses(filter, links));
      var accepted := EvalFilter(filter, processes[i].process, tree);
      if accepted {
        taken := taken + [processes[i]];
      } else {
        left := left + [processes[i]];
      }
    }
    assert processes[..|processes|] == processes;
  }

  /** Taking what an `and` accepts is taking what its first child accepts, then what the others accept of that. */
  lemma {:induction false} AndSelects(processes: seq<ProcessInfo>, f: Filter, fs: seq<Filter>, links: set<Edge>)
    ensures Select(processes, Accepts(And([f] + fs), links))
         == Select(Select(processes, Accepts(f, links)), Accepts(And(fs), links))
  {
    forall p <- processes
      ensures Accepts(And([f] + fs), links)(p) == (Accepts(f, links)(p) && Accepts(And(fs), links)(p))
    {
      AndCons(f, fs, p.process, links);
    }
    SelectTwice(processes, Accepts(f, links), Accepts(And(fs), links), Accepts(And([f] + fs), links));
  }

  /** What an `or` leaves is what its first child leaves, without what the others accept of that. */
  lemma {:induction false} OrLeaves(processes: seq<ProcessInfo>, f: Filter, fs: seq<Filter>, links: set<Edge>)
    ensures Select(processes, Refuses(Or([f] + fs), links))
         == Select(Select(processes, Refuses(f, links)), Refuses(Or(fs), links))
  {
    forall p <- processes
      ensures Refuses(Or([f] + fs), links)(p) == (Refuses(f, links)(p) && Refuses(Or(fs), links)(p))
    {
      OrCons(f, fs, p.process, links);
    }
    SelectTwice(processes, Refuses(f, links), Refuses(Or(fs), links), Refuses(Or([f] + fs), links));
  }

  /** A negation takes exactly what its argument leaves, and leaves what it takes. */
  lemma {:induction false} NotSelects(processes: seq<ProcessInfo>, f: Filter, links: set<Edge>)
    ensures Select(processes, Accepts(Not(f), links)) == Select(processes, Refuses(f, links))
    ensures Select(processes, Refuses(Not(f), links)) == Select(processes, Accepts(f, links))
  {
    forall p <- processes
      ensures Accepts(Not(f), links)(p) == Refuses(f, links)(p)
      ensures Refuses(Not(f), links)(p) == Accepts(f, links)(p)
    {
      NotRefuses(f, p.process, links);
    }
    SelectSame(processes, Accepts(Not(f), links), Refuses(f, links));
    SelectSame(processes, Refuses(Not(f), links), Accepts(f, links));
  }

  /** The group of the processes that filter `k` is the first to accept. */
  ghost function GroupAt(
    name: string, filters: seq<Filter>, processes: seq<ProcessInfo>, links: set<Edge>, k: nat): ProcessGroupInfo
  {
    GroupOf(Select(processes, At(filters, links, k)), name)
  }

  /** What the first `k` filters insert: a name that comes back keeps only its last group. */
  ghost predicate Inserted(
    groups: map<string, ProcessGroupInfo>,
    names: seq<string>, filters: seq<Filter>, processes: seq<ProcessInfo>, links: set<Edge>, k: nat)
    requires k <= |names|
  {
    && groups.Keys == (set n | n in names[..k])
    && forall j | 0 <= j < k && names[j] in groups && names[j] !in names[j + 1..k] ::
         groups[names[j]] == GroupAt(names[j], filters, processes, links, j)
  }

  lemma {:induction false} InsertStep(
    groups: map<string, ProcessGroupInfo>,
    names: seq<string>, filters: seq<Filter>, processes: seq<ProcessInfo>, links: set<Edge>, k: nat)
    requires k < |names| && Inserted(groups, names, filters, processes, links, k)
    ensures Inserted(groups[names[k] := GroupAt(names[k], filters, processes, links, k)],
                     names, filters, processes, links, k + 1)
  {
    assert names[..k + 1] == names[..k] + [names[k]];
    forall j | 0 <= j < k && names[j] !in names[j + 1..k + 1]
      ensures names[j] != names[k] && names[j] !in names[j + 1..k]
    {
      assert names[j + 1..k + 1] == names[j + 1..k] + [names[k]];
    }
  }

  lemma {:induction false} LastOccurrence(names: seq<string>, n: string) returns (k: nat)
    requires n in names
    ensures k < |names| && names[k] == n && IsLast(names, k)
  {
    var last := |names| - 1;
    if names[last] == n {
      k := last;
    } else {
      assert names == names[..last] + [names[last]];
      k := LastOccurrence(names[..last], n);
      assert names[k + 1..] == names[..last][k + 1..] + [names[last]];
    }
  }

  /** The groups of a custom split, told by the position of their filter. */
  lemma {:induction false} CustomAt(
    names: seq<string>, filters: seq<Filter>, processes: seq<ProcessInfo>, links: set<Edge>, k: nat)
    requires |names| == |filters| && OTHER !in names && k <= |names| && (k < |names| ==> IsLast(names, k))
    ensures var n := if k < |names| then names[k] else OTHER;
            && n in CustomGroups(names, filters, processes, links)
            && CustomGroups(names, filters, processes, links)[n] == GroupAt(n, filters, processes, links, k)
  {
    ClassIsAt(names, filters, processes, links, k);
  }

  lemma {:induction false} SameGroups(a: map<string, ProcessGroupInfo>, b: map<string, ProcessGroupInfo>)
    requires a.Keys == b.Keys && forall n <- a.Keys :: a[n] == b[n]
    ensures a == b
  {
  }

  lemma {:induction false} InsertedAt(
    groups: map<string, ProcessGroupInfo>,
    names: seq<string>, filters: seq<Filter>, processes: seq<ProcessInfo>, links: set<Edge>, n: string)
    requires |names| == |filters| && OTHER !in names && n in names
    requires Inserted(groups, names, filters, processes, links, |names|)
    ensures n in groups && n in CustomGroups(names, filters, processes, links)
    ensures groups[n] == CustomGroups(names, filters, processes, links)[n]
  {
    var k := LastOccurrence(names, n);
    CustomAt(names, filters, processes, links, k);
    assert names[..|names|] == names;
    assert names[k + 1..|names|] == names[k + 1..];
  }

  lemma {:induction false} InsertedIsCustom(
    groups: map<string, ProcessGroupInfo>,
    names: seq<string>, filters: seq<Filter>, processes: seq<ProcessInfo>, links: set<Edge>)
    requires |names| == |filters| && OTHER !in names
    requires Inserted(groups, names, filters, processes, links, |names|)
    ensures groups[OTHER := GroupAt(OTHER, filters, processes, links, |names|)]
         == CustomGroups(names, filters, processes, links)
  {
    var all := groups[OTHER := GroupAt(OTHER, filters, processes, links, |names|)];
    CustomAt(names, filters, processes, links, |names|);
    assert names[..|names|] == names;
    forall n | n in all.Keys ensures all[n] == CustomGroups(names, filters, processes, links)[n] {
      if n != OTHER {
        InsertedAt(groups, names, filters, processes, links, n);
      }
    }
    SameGroups(all, CustomGroups(names, filters, processes, links));
  }

  // ----- the loop of `__split`

  /** After the first `k` filters: who is left, and what was inserted. */
  ghost predicate Splitting(
    left: seq<ProcessInfo>, inserted: map<string, ProcessGroupInfo>,
    names: seq<string>, filters: seq<Filter>, processes: seq<ProcessInfo>, links: set<Edge>, k: nat)
  {
    && k <= |names| == |filters|
    && left == Select(processes, AtLeast(filters, links, k))
    && Inserted(inserted, names, filters, processes, links, k)
  }

  lemma {:induction false} SplittingStarts(
    names: seq<string>, filters: seq<Filter>, processes: seq<ProcessInfo>, links: set<Edge>)
    requires |names| == |filters|
    ensures Splitting(processes, map[], names, filters, processes, links, 0)
  {
    SelectEverything(processes);
    SelectSame(processes, AtLeast(filters, links, 0), _ => true);
  }

  /** Applying filter `k` to what the filters before it left. */
  lemma {:induction false} SplittingStep(
    left: seq<ProcessInfo>, inserted: map<string, ProcessGroupInfo>,
    names: seq<string>, filters: seq<Filter>, processes: seq<ProcessInfo>, links: set<Edge>, k: nat)
    requires k < |names| && Splitting(left, inserted, names, filters, processes, links, k)
    ensures Splitting(
              Select(left, Refuses(filters[k], links)),
              inserted[names[k] := GroupOf(Select(left, Accepts(filters[k], links)), names[k])],
              names, filters, processes, links, k + 1)
  {
    SelectTwice(processes, AtLeast(filters, links, k), Accepts(filters[k], links), At(filters, links, k));
    SelectTwice(processes, AtLeast(filters, links, k), Refuses(filters[k], links), AtLeast(filters, links, k + 1));
    InsertStep(inserted, names, filters, processes, links, k);
  }

  lemma {:induction false} SplittingEnds(
    left: seq<ProcessInfo>, inserted: map<string, ProcessGroupInfo>,
    names: seq<string>, filters: seq<Filter>, processes: seq<ProcessInfo>, links: set<Edge>)
    requires NamesMatch(names, filters)
    requires Splitting(left, inserted, names, filters, processes, links, |names|)
    ensures inserted[OTHER := GroupOf(left, OTHER)] == CustomGroups(names, filters, processes, links)
  {
    OtherIsNoName(names, filters);
    SelectSame(processes, AtLeast(filters, links, |filters|), At(filters, links, |filters|));
    InsertedIsCustom(inserted, names, filters, processes, links);
  }

  lemma {:induction false} InsertInSum<K, V>(a: map<K, V>, b: map<K, V>, k: K, v: V)
    ensures (a + b)[k := v] == a + b[k := v]
  {
  }

  // ----- the loop of `new`

  /** With `counter` characters read, these are the first filters of the whole list, and their texts. */
  ghost predicate Reading(
    all: Result<Items, ParseError>, input: string, filters: seq<Filter>, names: seq<string>, counter: nat)
  {
    counter <= |input| && all == Resume(Items(filters, names), ParseList(input[counter..]))
  }

  lemma {:induction false} ReadingStarts(input: string)
    ensures Reading(ParseList(input), input, [], [], 0)
  {
    assert input[0..] == input;
    ResumeNothing(ParseList(input));
  }

  lemma {:induction false} ReadingStep(
    all: Result<Items, ParseError>, input: string, filters: seq<Filter>, names: seq<string>, counter: nat,
    filter: Filter, ate: nat, name: string)
    requires Reading(all, input, filters, names, counter)
    requires Parse(input[counter..]) == Ok((filter, ate)) && name == input[counter..][..ate]
    ensures if counter + ate == |input| then all == Ok(Items(filters + [filter], names + [name]))
            else Reading(all, input, filters + [filter], names + [name], counter + ate + 1)
  {
    var text := input[counter..];
    ResumeStep(Items(filters, names), text, filter, ate);
    if counter + ate < |input| {
      assert text[ate + 1..] == input[counter + ate + 1..];
    }
  }

  lemma {:induction false} ReadingFails(
    all: Result<Items, ParseError>, input: string, filters: seq<Filter>, names: seq<string>, counter: nat)
    requires Reading(all, input, filters, names, counter) && Parse(input[counter..]).Err?
    ensures all == Err(BadChild(input[counter..]))
  {
  }

  /** The loop of `new`: the filters of the input, and the text of each. */
  method ReadFilters(input: string) returns (r: Result<Items, ParseError>)
    ensures r == ParseList(input)
  {
    var filters: seq<Filter> := [];
    var names: seq<string> := [];
    var counter := 0;
    ghost var all := ParseList(input);
    ReadingStarts(input);
    while true
      invariant Reading(all, input, filters, names, counter)
      decreases |input| - counter
    {
      var parsed := ParseFilter(input[counter..]);
      if parsed.Err? {
        ReadingFails(all, input, filters, names, counter);
        return Err(BadChild(input[counter..]));
      }
      var (filter, ate) := parsed.value;
      var name := input[counter..counter + ate];
      assert name == input[counter..][..ate];
      ReadingStep(all, input, filters, names, counter, filter, ate, name);
      filters := filters + [filter];
      names := names + [name];
      counter := counter + ate;
      if counter + 1 > |input| {
        break;
      }
      counter := counter + 1;
    }
    // the "Didn't parse full filter" warning cannot be issued
    assert counter == |input|;
    return Ok(Items(filters, names));
  }

  class ProcessSplitterCustomFilter {
    var name: string
    var filters: seq<Filter>
    var names: seq<string>
    var groups: map<string, ProcessGroupInfo>

    ghost predicate Valid()
      reads this
    {
      NamesMatch(names, filters)
    }

    constructor Of(name: string, filters: seq<Filter>, names: seq<string>)
      ensures this.name == name && this.filters == filters && this.names == names && groups == map[]
    {
      this.name, this.filters, this.names := name, filters, names;
      groups := map[];
    }

    static method New(input: string) returns (r: Result<ProcessSplitterCustomFilter, ParseError>)
      ensures match SplitterItems(input)
              case Err(e) => r == Err(e)
              case Ok(items) =>
                && r.Ok? && fresh(r.value) && r.value.Valid() && r.value.groups == map[]
                && r.value.name == input
                && r.value.filters == items.filters && r.value.names == items.texts
    {
      if !IsAscii(input) {
        return Err(NotAscii);
      }
      var read := ReadFilters(input);
      if read.Err? {
        return Err(read.error);
      }
      ListNamesMatch(input);
      var splitter := new ProcessSplitterCustomFilter.Of(input, read.value.filters, read.value.texts);
      return Ok(splitter);
    }

    method Split(tree: ProcessTree, processes: seq<ProcessInfo>)
      requires Valid()
      modifies this`groups
      ensures groups == old(groups) + CustomGroups(names, filters, processes, tree.Links())
    {
      ghost var links := tree.Links();
      ghost var inserted: map<string, ProcessGroupInfo> := map[];
      var left := processes;
      SplittingStarts(names, filters, processes, links);
      for k := 0 to |names|
        invariant groups == old(groups) + inserted
        invariant Splitting(left, inserted, names, filters, processes, links, k)
      {
        SplittingStep(left, inserted, names, filters, processes, links, k);
        var taken;
        taken, left := ExtractIf(filters[k], tree, left);
        var g := GetProcessesGroupInfo(taken, names[k]);
        InsertInSum(old(groups), inserted, names[k], g);
        groups := groups[names[k] := g];
        inserted := inserted[names[k] := g];
      }
      SplittingEnds(left, inserted, names, filters, processes, links);
      var other := GetProcessesGroupInfo(left, OTHER);
      InsertInSum(old(groups), inserted, OTHER, other);
      groups := groups[OTHER := other];
    }

    method Collect() returns (processes: seq<ProcessInfo>)
      ensures Collected(processes, groups)
    {
      processes := CollectProcesses(groups);
    }
  }
}
