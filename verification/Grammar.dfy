/**
 What filter texts mean, stated without the parser: `Denotes(t, f)` says that the whole of `t` is one
 way of writing `f`. The parser accepts exactly the texts of this grammar.
 */
module Grammar {
  import opened Wrappers
  import opened Decimal
  import opened Parentheses
  import opened Filters

  function OperatorName(f: Filter): string {
    Spelling(OperatorIn(f))
  }

  /** What stands between the parentheses of a call of `name`. */
  function Argument(t: string, name: string): string
    requires |t| >= |name| + 2
  {
    t[|name| + 1..|t| - 1]
  }

  ghost predicate IsCall(t: string, name: string) {
    && |t| >= |name| + 2
    && t[..|name| + 1] == name + "("
    && t[|t| - 1] == ')'
    && Balanced(Argument(t, name))
  }

  ghost predicate Denotes(t: string, f: Filter)
    decreases f, 1
  {
    IsCall(t, OperatorName(f)) && ArgumentDenotes(Argument(t, OperatorName(f)), f)
  }

  ghost predicate ArgumentDenotes(arg: string, f: Filter)
    decreases f, 0
  {
    match f
    case Not(g) => exists k {:trigger Denotes(arg[..k], g)} | 0 <= k <= |arg| ::
                     Denotes(arg[..k], g) // anything may follow
    case True => true
    case False => true
    case And(fs) => DenotesList(arg, fs)
    case Or(fs) => DenotesList(arg, fs)
    case Comm(comm) => arg == comm
    case Uid(uid) => ParseU32(arg) == Some(uid)
    case Descendants(pid) => ParseI32(arg) == Some(pid)
    case Pid(pid) => ParseI32(arg) == Some(pid)
    case EnvironK(key) => arg == key
    case EnvironKV(key, value) =>
      exists p, q, rest :: IsPair(arg, p, q, rest) && Trim(p) == key && Trim(q) == value
  }

  /** Two pieces without commas and what follows them, which is ignored. */
  ghost predicate IsPair(arg: string, p: string, q: string, rest: string) {
    && arg == p + "," + q + rest
    && ',' !in p && ',' !in q
    && (rest != [] ==> rest[0] == ',')
  }

  /** One filter or more, with exactly one character, whatever it is, between neighbours. */
  ghost predicate DenotesList(t: string, fs: seq<Filter>)
    decreases fs, 2
  {
    if fs == [] then false
    else if |fs| == 1 then Denotes(t, fs[0])
    else exists k: nat :: SplitsAt(t, fs, k)
  }

  /** The first filter ends at `k`, and the others follow the separator. */
  ghost predicate SplitsAt(t: string, fs: seq<Filter>, k: nat)
    requires |fs| > 1
    decreases fs, 1
  {
    k < |t| && Denotes(t[..k], fs[0]) && DenotesList(t[k + 1..], fs[1..])
  }

  // ----- the parser accepts exactly the grammar

  lemma {:induction false} SpellingIsPlain(op: Operator)
    ensures Spelling(op) != [] && Neutral(Spelling(op))
    ensures '(' !in Spelling(op)
    ensures !IsSpace(Spelling(op)[0])
  {
  }

  lemma {:induction false} SpellingIsUnique(op: Operator)
    ensures OperatorOf(Spelling(op)) == Some(op)
  {
  }

  lemma {:induction false} FindUnique(s: string, c: char, i: nat)
    requires i < |s| && s[i] == c && c !in s[..i]
    ensures Find(s, c) == Some(i)
  {
    if i > 0 {
      assert s[0] == s[..i][0];
      assert s[1..][..i - 1] == s[..i][1..];
      FindUnique(s[1..], c, i - 1);
    }
  }

  /** What the two scans of the source find at the start of a call of `name`. */
  ghost predicate Scanned(s: string, name: string, n: nat) {
    && Find(s, '(') == Some(|name|)
    && s[..|name|] == name
    && n > 0 && MatchFrom(s, |name|, 0) == Ok(n - 1)
  }

  lemma {:induction false} CallStart(s: string, name: string, n: nat)
    requires |name| + 2 <= n <= |s|
    ensures s[..n][..|name| + 1] == name + "(" <==> s[..|name|] == name && s[|name|] == '('
    ensures Argument(s[..n], name) == s[|name| + 1..n - 1]
  {
    var start := s[..|name| + 1];
    assert s[..n][..|name| + 1] == start == s[..|name|] + [s[|name|]];
    if start == name + "(" {
      assert start[..|name|] == name && start[|name|] == '(';
    }
  }

  lemma {:induction false} ScannedIsCall(s: string, name: string, n: nat)
    requires Scanned(s, name, n)
    ensures n <= |s| && IsCall(s[..n], name)
  {
    MatchIffBalanced(s, |name|, n - 1);
    CallStart(s, name, n);
  }

  lemma {:induction false} CallIsScanned(s: string, name: string, n: nat)
    requires '(' !in name && n <= |s| && IsCall(s[..n], name)
    ensures Scanned(s, name, n)
  {
    CallStart(s, name, n);
    FindUnique(s, '(', |name|);
    MatchIffBalanced(s, |name|, n - 1);
  }

  /** Whatever is accepted is a call of the operator of the returned filter. */
  lemma {:induction false} ParsedIsCall(s: string, f: Filter, n: nat)
    requires Parse(s) == Ok((f, n))
    ensures n <= |s| && IsCall(s[..n], OperatorName(f))
    ensures ParseArgument(OperatorIn(f), Argument(s[..n], OperatorName(f))) == Ok(f)
  {
    var opening := Find(s, '(').value;
    assert ParseCall(s, opening) == Ok((f, n));
    var name := s[..opening];
    ScannedIsCall(s, name, n);
    CallStart(s, name, n);
  }

  lemma {:induction false} ScannedParses(s: string, name: string, op: Operator, n: nat)
    requires |name| + 2 <= n <= |s| && Scanned(s, name, n) && OperatorOf(name) == Some(op)
    ensures Parse(s) == Eaten(ParseArgument(op, s[|name| + 1..n - 1]), n)
  {
    assert Parse(s) == ParseCall(s, |name|);
  }

  /** And the argument of a call decides whether it is accepted. */
  lemma {:induction false} CallIsParsed(s: string, op: Operator, n: nat)
    requires n <= |s| && IsCall(s[..n], Spelling(op))
    ensures Parse(s) == Eaten(ParseArgument(op, Argument(s[..n], Spelling(op))), n)
  {
    SpellingIsPlain(op);
    SpellingIsUnique(op);
    CallIsScanned(s, Spelling(op), n);
    CallStart(s, Spelling(op), n);
    ScannedParses(s, Spelling(op), op, n);
  }

  lemma {:induction false} ParseIffCall(s: string, f: Filter, n: nat)
    ensures Parse(s) == Ok((f, n))
       <==> n <= |s| && IsCall(s[..n], OperatorName(f))
            && ParseArgument(OperatorIn(f), Argument(s[..n], OperatorName(f))) == Ok(f)
  {
    if Parse(s) == Ok((f, n)) {
      ParsedIsCall(s, f, n);
    }
    if n <= |s| && IsCall(s[..n], OperatorName(f)) {
      CallIsParsed(s, OperatorIn(f), n);
    }
  }

  /** The parser returns `f` having eaten `n` characters exactly when those characters denote `f`. */
  lemma {:induction false} ParseIffDenotes(s: string, f: Filter, n: nat)
    ensures Parse(s) == Ok((f, n)) <==> n <= |s| && Denotes(s[..n], f)
    decreases f, 1
  {
    ParseIffCall(s, f, n);
    if n <= |s| && IsCall(s[..n], OperatorName(f)) {
      ArgumentIffDenotes(Argument(s[..n], OperatorName(f)), f);
    }
  }

  lemma {:induction false} ArgumentIffDenotes(arg: string, f: Filter)
    ensures ParseArgument(OperatorIn(f), arg) == Ok(f) <==> ArgumentDenotes(arg, f)
    decreases f, 0
  {
    match f
    case Not(g) =>
      forall k: nat ensures Parse(arg) == Ok((g, k)) <==> k <= |arg| && Denotes(arg[..k], g) {
        ParseIffDenotes(arg, g, k);
      }
    case And(fs) => ListIffDenotes(arg, fs);
    case Or(fs) => ListIffDenotes(arg, fs);
    case EnvironKV(key, value) => PairIffDenotes(arg, key, value);
    case _ =>
  }

  lemma {:induction false} PieceFound(s: string, p: string, rest: string)
    requires s == p + rest && ',' !in p && (rest != [] ==> rest[0] == ',')
    ensures NextPiece(s, ',') == (p, if rest == [] then None else Some(rest[1..]))
  {
    if rest == [] {
      assert s == p;
    } else {
      assert s[..|p|] == p && s[|p| + 1..] == rest[1..];
      FindUnique(s, ',', |p|);
    }
  }

  lemma {:induction false} PieceParts(s: string) returns (rest: string)
    ensures var (p, after) := NextPiece(s, ',');
            && s == p + rest && ',' !in p && (rest != [] ==> rest[0] == ',')
            && after == if rest == [] then None else Some(rest[1..])
  {
    var i := Find(s, ',');
    rest := if i.None? then "" else s[i.value..];
  }

  lemma {:induction false} PairFound(arg: string, p: string, q: string, rest: string)
    requires IsPair(arg, p, q, rest)
    ensures ParseLeaf(EnvironKVOp, arg) == Ok(EnvironKV(Trim(p), Trim(q)))
  {
    var after := q + rest;
    assert arg == p + ("," + after);
    assert ("," + after)[1..] == after;
    PieceFound(arg, p, "," + after);
    PieceFound(after, q, rest);
  }

  lemma {:induction false} PairParts(arg: string) returns (p: string, q: string, rest: string)
    requires ParseLeaf(EnvironKVOp, arg).Ok?
    ensures IsPair(arg, p, q, rest)
  {
    var afterFirst := PieceParts(arg);
    var after := afterFirst[1..];
    rest := PieceParts(after);
    p, q := NextPiece(arg, ',').0, NextPiece(after, ',').0;
    Rejoin(p, q, rest, afterFirst);
  }

  lemma {:induction false} Rejoin(p: string, q: string, rest: string, afterFirst: string)
    requires afterFirst != [] && afterFirst[0] == ',' && afterFirst[1..] == q + rest
    ensures p + afterFirst == p + "," + q + rest
  {
    assert afterFirst == "," + (q + rest);
  }

  lemma {:induction false} PairIffDenotes(arg: string, key: string, value: string)
    ensures ParseLeaf(EnvironKVOp, arg) == Ok(EnvironKV(key, value))
       <==> exists p, q, rest :: IsPair(arg, p, q, rest) && Trim(p) == key && Trim(q) == value
  {
    forall p, q, rest | IsPair(arg, p, q, rest)
      ensures ParseLeaf(EnvironKVOp, arg) == Ok(EnvironKV(Trim(p), Trim(q)))
    {
      PairFound(arg, p, q, rest);
    }
    if ParseLeaf(EnvironKVOp, arg).Ok? {
      var p, q, rest := PairParts(arg);
    }
  }

  lemma {:induction false} ListIffDenotes(t: string, fs: seq<Filter>)
    ensures ParsesToList(t, fs) <==> DenotesList(t, fs)
    decreases fs, 3
  {
    if ParsesToList(t, fs) {
      ParsedListDenotes(t, fs);
    }
    if DenotesList(t, fs) {
      DenotedListParses(t, fs);
    }
  }

  lemma {:induction false} ParsedListDenotes(t: string, fs: seq<Filter>)
    requires ParsesToList(t, fs)
    ensures DenotesList(t, fs)
    decreases fs, 2
  {
    ListStep(t, fs);
    var ate := Parse(t).value.1;
    ParseIffDenotes(t, fs[0], ate);
    if ate == |t| {
      assert t[..ate] == t;
    } else {
      ListIffDenotes(t[ate + 1..], fs[1..]);
      assert SplitsAt(t, fs, ate);
    }
  }

  lemma {:induction false} DenotedListParses(t: string, fs: seq<Filter>)
    requires DenotesList(t, fs)
    ensures ParsesToList(t, fs)
    decreases fs, 2
  {
    var k := DenotedHead(t, fs);
    ListStep(t, fs);
  }

  /** The parser finds the first filter of a denoted list, and the rest of the list behind it. */
  lemma {:induction false} DenotedHead(t: string, fs: seq<Filter>) returns (k: nat)
    requires DenotesList(t, fs)
    ensures fs != [] && k <= |t| && Parse(t) == Ok((fs[0], k))
    ensures |fs| == 1 ==> k == |t|
    ensures |fs| > 1 ==> k < |t| && ParsesToList(t[k + 1..], fs[1..])
    decreases fs, 1
  {
    if |fs| == 1 {
      k := |t|;
      assert t[..k] == t;
      ParseIffDenotes(t, fs[0], k);
    } else {
      k :| SplitsAt(t, fs, k);
      SplitParses(t, fs, k);
    }
  }

  lemma {:induction false} SplitParses(t: string, fs: seq<Filter>, k: nat)
    requires |fs| > 1 && SplitsAt(t, fs, k)
    ensures Parse(t) == Ok((fs[0], k)) && ParsesToList(t[k + 1..], fs[1..])
    decreases fs, 0
  {
    ListIffDenotes(t[k + 1..], fs[1..]);
    ParseIffDenotes(t, fs[0], k);
  }

  ghost predicate ParsesToList(t: string, fs: seq<Filter>) {
    ParseList(t).Ok? && ParseList(t).value.filters == fs
  }

  /** One step of `ParseList`, told in terms of the filters it returns. */
  ghost predicate ListSteps(t: string, fs: seq<Filter>, f: Filter, ate: nat)
    requires 0 < ate <= |t|
  {
    && fs != [] && f == fs[0]
    && if ate == |t| then |fs| == 1 else |fs| > 1 && ParsesToList(t[ate + 1..], fs[1..])
  }

  lemma {:induction false} ListStep(t: string, fs: seq<Filter>)
    ensures ParsesToList(t, fs)
       <==> Parse(t).Ok? && ListSteps(t, fs, Parse(t).value.0, Parse(t).value.1)
  {
    if Parse(t).Ok? {
      var (f, ate) := Parse(t).value;
      UnfoldList(t, f, ate);
      if ate < |t| {
        ConsFilters(Items([f], [t[..ate]]), t[ate + 1..], fs);
      }
    }
  }

  lemma {:induction false} UnfoldList(t: string, f: Filter, ate: nat)
    requires Parse(t) == Ok((f, ate))
    ensures ParseList(t) == if ate == |t| then Ok(Items([f], [t[..ate]]))
                            else Resume(Items([f], [t[..ate]]), ParseList(t[ate + 1..]))
  {
  }

  lemma {:induction false} ConsFilters(first: Items, t: string, fs: seq<Filter>)
    requires |first.filters| == 1
    ensures (var r := Resume(first, ParseList(t));
             r.Ok? && r.value.filters == fs)
       <==> |fs| > 1 && first.filters[0] == fs[0] && ParsesToList(t, fs[1..])
  {
    ListNotEmpty(t);
    if ParseList(t).Ok? {
      assert fs != [] ==> fs == [fs[0]] + fs[1..];
    }
  }

  lemma {:induction false} ListNotEmpty(t: string)
    ensures ParseList(t).Ok? ==> ParseList(t).value.filters != []
  {
  }
}
