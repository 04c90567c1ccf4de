/** Writing filters back as text, and what follows for the parser. */
module Printing {
  import opened Wrappers
  import opened Decimal
  import opened Parentheses
  import opened Filters
  import opened Grammar

  function Close(n: int): string {
    if n <= 0 then "" else seq(n, _ => ')')
  }

  function Print(f: Filter): string
    decreases f, 1
  {
    OperatorName(f) + "(" + PrintArgument(f) + ")"
  }

  function PrintArgument(f: Filter): string
    decreases f, 0
  {
    match f
    case Not(g) => Print(g)
    case True => ""
    case False => ""
    case And(fs) => PrintList(fs)
    case Or(fs) => PrintList(fs)
    case Comm(comm) => comm
    case Uid(uid) => Show(uid)
    case Descendants(pid) => Show(pid)
    case Pid(pid) => Show(pid)
    case EnvironK(key) => key
    case EnvironKV(key, value) =>
      // an ignored third piece closes what the first two leave open
      var pair := key + "," + value;
      if Depth(pair) <= 0 then pair else pair + "," + Close(Depth(pair))
  }

  function PrintList(fs: seq<Filter>): string
    decreases fs, 2
  {
    if fs == [] then ""
    else if |fs| == 1 then Print(fs[0])
    else Print(fs[0]) + "," + PrintList(fs[1..])
  }

  /** The filters that have a text: what the syntax of the language can carry. */
  ghost predicate WellFormed(f: Filter) {
    match f
    case Not(g) => WellFormed(g)
    case And(fs) => fs != [] && forall g <- fs :: WellFormed(g)
    case Or(fs) => fs != [] && forall g <- fs :: WellFormed(g)
    case Comm(comm) => Balanced(comm)
    case EnvironK(key) => Balanced(key)
    case EnvironKV(key, value) =>
      && ',' !in key && ',' !in value
      && Trim(key) == key && Trim(value) == value
      && NeverNegative(key + "," + value)
    case _ => true
  }

  // ----- printed filters denote themselves

  lemma {:induction false} CallIsBalanced(t: string, name: string)
    requires IsCall(t, name) && Neutral(name)
    ensures Balanced(t)
  {
    var arg := Argument(t, name);
    BalancedWrap(arg);
    NeutralBalanced(name);
    BalancedConcat(name, "(" + arg + ")");
    assert t == t[..|name| + 1] + arg + [t[|t| - 1]];
    assert t == name + ("(" + arg + ")");
  }

  lemma {:induction false} DenotedIsBalanced(t: string, f: Filter)
    requires Denotes(t, f)
    ensures Balanced(t) && t != [] && t[|t| - 1] == ')'
  {
    SpellingIsPlain(OperatorIn(f));
    CallIsBalanced(t, OperatorName(f));
  }

  lemma {:induction false} WrapDenotes(f: Filter, arg: string)
    requires Balanced(arg) && ArgumentDenotes(arg, f)
    ensures Denotes(OperatorName(f) + "(" + arg + ")", f)
  {
    var t := OperatorName(f) + "(" + arg + ")";
    assert t[..|OperatorName(f)| + 1] == OperatorName(f) + "(";
    assert Argument(t, OperatorName(f)) == arg;
  }

  lemma {:induction false} ShownIsBalanced(n: int)
    ensures Balanced(Show(n))
    ensures -0x8000_0000 <= n < 0x8000_0000 ==> ParseI32(Show(n)) == Some(n)
    ensures 0 <= n < 0x1_0000_0000 ==> ParseU32(Show(n)) == Some(n)
  {
    ShownChars(n);
    NeutralBalanced(Show(n));
    ParseShown(n);
  }

  lemma {:induction false} CloseDepth(n: nat)
    ensures Depth(Close(n)) == 0 - n
  {
    if n > 0 {
      CloseDepth(n - 1);
      assert Close(n)[..n - 1] == Close(n - 1);
    }
  }

  lemma {:induction false} ClosingTail(d: nat, k: nat)
    requires k <= d + 1
    ensures DepthAt("," + Close(d), k) == if k == 0 then 0 else 1 - k
  {
    SingleDepth(',');
    if k > 0 {
      PrefixDepth(",", Close(d), k);
      assert Close(d)[..k - 1] == Close(k - 1);
      CloseDepth(k - 1);
    }
  }

  /** Closing what is open balances a text that never goes negative. */
  lemma {:induction false} CloseBalances(pair: string)
    requires NeverNegative(pair)
    ensures var d := Depth(pair);
            d >= 0 && Balanced(if d <= 0 then pair else pair + "," + Close(d))
  {
    var d := Depth(pair);
    DepthAtEnd(pair);
    if d > 0 {
      var tail := "," + Close(d);
      forall k: nat | k <= |tail| ensures DepthAt(tail, k) == if k == 0 then 0 else 1 - k {
        ClosingTail(d, k);
      }
      DepthAtEnd(tail);
      DepthConcat(pair, tail);
      NeverNegativeConcat(pair, tail);
      assert pair + "," + Close(d) == pair + tail;
    }
  }

  lemma {:induction false} PrintedPair(key: string, value: string)
    requires WellFormed(EnvironKV(key, value))
    ensures var f := EnvironKV(key, value);
            Balanced(PrintArgument(f)) && ArgumentDenotes(PrintArgument(f), f)
  {
    var pair := key + "," + value;
    CloseBalances(pair);
    var rest := if Depth(pair) <= 0 then "" else "," + Close(Depth(pair));
    assert pair + "," + Close(Depth(pair)) == pair + ("," + Close(Depth(pair)));
    assert IsPair(PrintArgument(EnvironKV(key, value)), key, value, rest);
  }

  lemma {:induction false} PrintDenotes(f: Filter)
    requires WellFormed(f)
    ensures Denotes(Print(f), f)
    decreases f, 1
  {
    PrintedArgument(f);
    WrapDenotes(f, PrintArgument(f));
  }

  lemma {:induction false} PrintedArgument(f: Filter)
    requires WellFormed(f)
    ensures Balanced(PrintArgument(f)) && ArgumentDenotes(PrintArgument(f), f)
    decreases f, 0
  {
    match f
    case Not(g) =>
      PrintDenotes(g);
      DenotedIsBalanced(Print(g), g);
      assert Print(g)[..|Print(g)|] == Print(g);
    case And(fs) => PrintedList(fs);
    case Or(fs) => PrintedList(fs);
    case Uid(n) => ShownIsBalanced(n);
    case Pid(n) => ShownIsBalanced(n);
    case Descendants(n) => ShownIsBalanced(n);
    case EnvironKV(key, value) => PrintedPair(key, value);
    case True => NeutralBalanced("");
    case False => NeutralBalanced("");
    case _ =>
  }

  lemma {:induction false} PrintedList(fs: seq<Filter>)
    requires fs != [] && forall g <- fs :: WellFormed(g)
    ensures Balanced(PrintList(fs)) && DenotesList(PrintList(fs), fs)
    decreases fs, 2
  {
    var head := Print(fs[0]);
    PrintDenotes(fs[0]);
    DenotedIsBalanced(head, fs[0]);
    if |fs| > 1 {
      var tail := PrintList(fs[1..]);
      PrintedList(fs[1..]);
      NeutralBalanced(",");
      BalancedConcat(head, ",");
      BalancedConcat(head + ",", tail);
      var t := head + "," + tail;
      assert t[..|head|] == head && t[|head| + 1..] == tail;
      assert SplitsAt(t, fs, |head|);
    }
  }

  // ----- everything parsed is well-formed

  lemma {:induction false} TrimStartParts(s: string)
    ensures exists a :: Neutral(a) && s == a + TrimStart(s)
    ensures TrimStart(TrimStart(s)) == TrimStart(s)
    ensures forall c :: c !in s ==> c !in TrimStart(s)
  {
    if s != [] && IsSpace(s[0]) {
      TrimStartParts(s[1..]);
      var a :| Neutral(a) && s[1..] == a + TrimStart(s[1..]);
      assert s == ([s[0]] + a) + TrimStart(s);
    } else {
      assert s == [] + TrimStart(s);
    }
  }

  lemma {:induction false} TrimEndParts(s: string)
    ensures exists b :: Neutral(b) && s == TrimEnd(s) + b
    ensures TrimEnd(TrimEnd(s)) == TrimEnd(s)
    ensures forall c :: c !in s ==> c !in TrimEnd(s)
    ensures TrimStart(s) == s ==> TrimStart(TrimEnd(s)) == TrimEnd(s)
  {
    if s != [] && IsSpace(s[|s| - 1]) {
      var front := s[..|s| - 1];
      TrimEndParts(front);
      var b :| Neutral(b) && front == TrimEnd(front) + b;
      assert s == front + [s[|s| - 1]] == TrimEnd(s) + (b + [s[|s| - 1]]);
      if TrimStart(s) == s {
        KeptStart(s);
        assert TrimStart(front) == front;
      }
    } else {
      assert s == TrimEnd(s) + [];
    }
  }

  lemma {:induction false} KeptStart(s: string)
    requires s != [] && TrimStart(s) == s
    ensures !IsSpace(s[0])
  {
    if IsSpace(s[0]) {
      TrimStartShrinks(s[1..]);
    }
  }

  lemma {:induction false} TrimStartShrinks(s: string)
    ensures |TrimStart(s)| <= |s|
  {
    if s != [] && IsSpace(s[0]) {
      TrimStartShrinks(s[1..]);
    }
  }

  /** Trimming removes text without parentheses on both sides, and does nothing the second time. */
  lemma {:induction false} TrimParts(s: string) returns (a: string, b: string)
    ensures Neutral(a) && Neutral(b) && s == a + Trim(s) + b
    ensures Trim(Trim(s)) == Trim(s)
    ensures forall c :: c !in s ==> c !in Trim(s)
  {
    TrimStartParts(s);
    TrimEndParts(TrimStart(s));
    a :| Neutral(a) && s == a + TrimStart(s);
    b :| Neutral(b) && TrimStart(s) == TrimEnd(TrimStart(s)) + b;
  }

  lemma {:induction false} TrimmedStart(first: string, tail: string)
    requires NeverNegative(first + tail)
    ensures NeverNegative(Trim(first) + tail)
  {
    var a, b := TrimParts(first);
    var k := Trim(first);
    assert first + tail == [] + a + (k + b + tail);
    DropNeutral([], a, k + b + tail);
    assert [] + (k + b + tail) == k + b + tail;
    DropNeutral(k, b, tail);
  }

  lemma {:induction false} TrimmedEnd(front: string, second: string)
    requires NeverNegative(front + second)
    ensures NeverNegative(front + Trim(second))
  {
    var a, b := TrimParts(second);
    var v := Trim(second);
    assert front + second == front + a + (v + b);
    DropNeutral(front, a, v + b);
    assert front + (v + b) == (front + v) + b + [];
    DropNeutral(front + v, b, []);
    assert (front + v) + [] == front + v;
  }

  /** Trimming the two halves of a pair keeps it from going negative. */
  lemma {:induction false} TrimmedPair(first: string, second: string)
    requires NeverNegative(first + "," + second)
    ensures NeverNegative(Trim(first) + "," + Trim(second))
  {
    assert first + "," + second == first + ("," + second);
    TrimmedStart(first, "," + second);
    assert Trim(first) + ("," + second) == (Trim(first) + ",") + second;
    TrimmedEnd(Trim(first) + ",", second);
  }

  lemma {:induction false} DenotedIsWellFormed(t: string, f: Filter)
    requires Denotes(t, f)
    ensures WellFormed(f)
    decreases f, 1
  {
    var arg := Argument(t, OperatorName(f));
    match f
    case Not(g) =>
      var k :| 0 <= k <= |arg| && Denotes(arg[..k], g);
      DenotedIsWellFormed(arg[..k], g);
    case And(fs) => ListIsWellFormed(arg, fs);
    case Or(fs) => ListIsWellFormed(arg, fs);
    case EnvironKV(key, value) =>
      var p, q, rest :| IsPair(arg, p, q, rest) && Trim(p) == key && Trim(q) == value;
      NeverNegativePrefix(p + "," + q, rest);
      TrimmedPair(p, q);
      var a, b := TrimParts(p);
      var c, d := TrimParts(q);
    case _ =>
  }

  lemma {:induction false} ListIsWellFormed(t: string, fs: seq<Filter>)
    requires DenotesList(t, fs)
    ensures fs != [] && forall g <- fs :: WellFormed(g)
    decreases fs, 2
  {
    if |fs| == 1 {
      DenotedIsWellFormed(t, fs[0]);
    } else {
      var k: nat :| SplitsAt(t, fs, k);
      DenotedIsWellFormed(t[..k], fs[0]);
      ListIsWellFormed(t[k + 1..], fs[1..]);
      assert fs == [fs[0]] + fs[1..];
    }
  }

  // ----- main results

  /** A printed filter is read back as itself, all of it and nothing more, whatever text follows. */
  lemma {:induction false} RoundTrip(f: Filter, rest: string)
    requires WellFormed(f)
    ensures Parse(Print(f) + rest) == Ok((f, |Print(f)|))
  {
    PrintDenotes(f);
    assert (Print(f) + rest)[..|Print(f)|] == Print(f);
    ParseIffDenotes(Print(f) + rest, f, |Print(f)|);
  }

  /** A filter is the result of parsing some text exactly when it is well-formed. */
  lemma {:induction false} ParseRange(f: Filter)
    ensures WellFormed(f) <==> exists s: string, n: nat :: Parse(s) == Ok((f, n))
  {
    if WellFormed(f) {
      RoundTrip(f, "");
    }
    if exists s: string, n: nat :: Parse(s) == Ok((f, n)) {
      var s: string, n: nat :| Parse(s) == Ok((f, n));
      ParseIffDenotes(s, f, n);
      DenotedIsWellFormed(s[..n], f);
    }
  }

  lemma {:induction false} PrintIsInjective(f: Filter, g: Filter)
    requires WellFormed(f) && WellFormed(g) && Print(f) == Print(g)
    ensures f == g
  {
    RoundTrip(f, "");
    RoundTrip(g, "");
  }

  /** A text that is one printed filter is a list of one item. */
  lemma {:induction false} OneItem(f: Filter)
    requires WellFormed(f)
    ensures ParseList(Print(f)) == Ok(Items([f], [Print(f)]))
  {
    RoundTrip(f, "");
    assert Print(f) + "" == Print(f);
    UnfoldList(Print(f), f, |Print(f)|);
    assert Print(f)[..|Print(f)|] == Print(f);
  }

  lemma {:induction false} EatenDenotes(s: string, f: Filter, n: nat)
    requires Parse(s) == Ok((f, n))
    ensures 0 < n <= |s| && Denotes(s[..n], f)
  {
    ParseIffDenotes(s, f, n);
  }

  /** What the parser reports as eaten is a balanced text ending with a closing parenthesis. */
  lemma {:induction false} EatenIsBalanced(s: string, f: Filter, n: nat)
    requires Parse(s) == Ok((f, n))
    ensures 0 < n <= |s| && s[n - 1] == ')' && Balanced(s[..n])
  {
    EatenDenotes(s, f, n);
    EndOfDenoted(s, f, n);
  }

  lemma {:induction false} EndOfDenoted(s: string, f: Filter, n: nat)
    requires 0 < n <= |s| && Denotes(s[..n], f)
    ensures s[n - 1] == ')' && Balanced(s[..n])
  {
    DenotedIsBalanced(s[..n], f);
  }

  /** The parser never depends on what follows the characters it reports as eaten. */
  lemma {:induction false} Locality(s: string, s': string, f: Filter, n: nat)
    requires Parse(s) == Ok((f, n)) && n <= |s'| && s'[..n] == s[..n]
    ensures Parse(s') == Ok((f, n))
  {
    ParseIffDenotes(s, f, n);
    ParseIffDenotes(s', f, n);
  }

  /** No filter text is a proper beginning of another one, and no text has two meanings. */
  lemma {:induction false} Unambiguous(t: string, more: string, f: Filter, g: Filter)
    requires Denotes(t, f) && Denotes(t + more, g)
    ensures f == g && more == []
  {
    var s := t + more;
    assert s[..|t|] == t && s[..|s|] == s;
    ParseIffDenotes(s, f, |t|);
    ParseIffDenotes(s, g, |s|);
  }

  lemma {:induction false} CallBegins(t: string, name: string)
    requires IsCall(t, name) && name != []
    ensures t[0] == name[0]
  {
    assert t[0] == t[..|name| + 1][0];
  }

  /** Blanks are not skipped: a filter text never starts with one. */
  lemma {:induction false} LeadingBlankRejected(s: string)
    requires s != [] && IsSpace(s[0])
    ensures Parse(s).Err?
  {
    if Parse(s).Ok? {
      var (f, n) := Parse(s).value;
      ParseIffCall(s, f, n);
      SpellingIsPlain(OperatorIn(f));
      CallBegins(s[..n], OperatorName(f));
      assert false;
    }
  }

  /** So a blank after any separator of a list makes the whole list invalid: `front` is what precedes the separator. */
  lemma {:induction false} BlankAfterSeparatorRejected(front: string, separator: char, rest: string)
    requires ParseList(front).Ok? && rest != [] && IsSpace(rest[0])
    ensures ParseList(front + [separator] + rest).Err?
    decreases |front|
  {
    var s := front + [separator] + rest;
    var (f, ate) := Parse(front).value;
    assert s[..ate] == front[..ate];
    Locality(front, s, f, ate);
    if ate == |front| {
      assert s[ate + 1..] == rest;
      LeadingBlankRejected(rest);
    } else {
      UnfoldList(front, f, ate);
      assert s[ate + 1..] == front[ate + 1..] + [separator] + rest;
      BlankAfterSeparatorRejected(front[ate + 1..], separator, rest);
    }
    UnfoldList(s, f, ate);
  }

  /** An `or` whose list is invalid is invalid. */
  lemma {:induction false} BadListRejected(list: string, rest: string)
    requires Balanced(list) && ParseList(list).Err?
    ensures Parse("or" + "(" + list + ")" + rest).Err?
  {
    var s := "or" + "(" + list + ")" + rest;
    var closing := |list| + 3;
    assert s[2] == '(' && s[3..closing] == list && s[closing] == ')' && s[..2] == "or";
    FindUnique(s, '(', 2);
    MatchIffBalanced(s, 2, closing);
    assert Parse(s) == ParseCall(s, 2);
    assert ParseArgument(OrOp, list).Err?;
  }

  lemma {:induction false} UidText(uid: u32)
    ensures Print(Uid(uid)) == "uid(" + Show(uid) + ")"
    ensures Balanced(Print(Uid(uid))) && ParseList(Print(Uid(uid))).Ok?
  {
    assert PrintArgument(Uid(uid)) == Show(uid);
    assert Spelling(UidOp) + "(" == "uid(";
    OneItem(Uid(uid));
    PrintDenotes(Uid(uid));
    DenotedIsBalanced(Print(Uid(uid)), Uid(uid));
  }

  lemma {:induction false} SpacedList(front: string, last: string, rest: string)
    requires Balanced(front) && Balanced(last) && ParseList(front).Ok?
    ensures Parse("or" + "(" + (front + ", " + last) + ")" + rest).Err?
  {
    NeutralBalanced(", ");
    BalancedConcat(front, ", ");
    BalancedConcat(front + ", ", last);
    assert front + ", " + last == front + [','] + (" " + last);
    BlankAfterSeparatorRejected(front, ',', " " + last);
    BadListRejected(front + ", " + last, rest);
  }

  lemma {:induction false} SpacedUids(a: u32, b: u32, rest: string)
    ensures Parse("or" + "(" + (Print(Uid(a)) + ", " + Print(Uid(b))) + ")" + rest).Err?
  {
    UidText(a);
    UidText(b);
    SpacedList(Print(Uid(a)), Print(Uid(b)), rest);
  }

  lemma {:induction false} ShownDigits()
    ensures Show(0) == "0" && Show(1000) == "1000"
  {
    assert ShowNat(1) == "1" && ShowNat(10) == ShowNat(1) + "0" && ShowNat(100) == ShowNat(10) + "0";
    assert ShowNat(1000) == ShowNat(100) + "0";
  }

  lemma {:induction false} DocumentedText()
    ensures "or" + "(" + ("uid(" + "0" + ")" + ", " + ("uid(" + "1000" + ")")) + ")" == "or(uid(0), uid(1000))"
  {
  }

  /** The documented `or(uid(0), uid(1000))` is not accepted. */
  lemma {:induction false} DocumentedListRejected(text: string, rest: string)
    requires text == "or(uid(0), uid(1000))"
    ensures Parse(text + rest).Err?
  {
    SpacedUids(0, 1000, rest);
    UidText(0);
    UidText(1000);
    ShownDigits();
    DocumentedText();
  }

  /** A call of a name no operator is spelled as is invalid, whatever its argument. */
  lemma {:induction false} UnknownOperatorRejected(name: string, rest: string)
    requires '(' !in name && OperatorOf(name).None?
    ensures Parse(name + "(" + rest).Err?
  {
    var s := name + "(" + rest;
    assert s[|name|] == '(' && s[..|name|] == name;
    FindUnique(s, '(', |name|);
    assert Parse(s) == ParseCall(s, |name|);
  }

  /** Two operators that the examples of `parse` use are not known to it. */
  lemma {:induction false} DocumentedNamesRejected(rest: string)
    ensures Parse("env" + "(" + rest).Err? && Parse("descendant" + "(" + rest).Err?
  {
    UnknownOperatorRejected("env", rest);
    UnknownOperatorRejected("descendant", rest);
  }
}
