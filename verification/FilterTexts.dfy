/** What the parser makes of the text of each operator, in literal characters. */
module FilterTexts {
  import opened Wrappers
  import opened Decimal
  import opened Parentheses
  import opened Filters
  import opened Grammar
  import opened Printing
  import opened Splitters

  // ----- calls

  lemma {:induction false} CallSlices(name: string, x: string, rest: string)
    ensures var s, closing := name + "(" + x + ")" + rest, |name| + 1 + |x|;
            && s[|name|] == '(' && s[..|name|] == name && s[|name| + 1..closing] == x && s[closing] == ')'
  {
  }

  /** A call of a known operator is read as far as its closing parenthesis. */
  lemma {:induction false} CallParses(name: string, op: Operator, x: string, rest: string)
    requires '(' !in name && OperatorOf(name) == Some(op) && Balanced(x)
    ensures Parse(name + "(" + x + ")" + rest) == Eaten(ParseArgument(op, x), |name| + |x| + 2)
  {
    CallSlices(name, x, rest);
    SlicedParses(name + "(" + x + ")" + rest, name, op, x);
  }

  lemma {:induction false} SlicedParses(s: string, name: string, op: Operator, x: string)
    requires '(' !in name && OperatorOf(name) == Some(op) && Balanced(x) && |name| + |x| + 2 <= |s|
    requires s[|name|] == '(' && s[..|name|] == name
    requires s[|name| + 1..|name| + 1 + |x|] == x && s[|name| + 1 + |x|] == ')'
    ensures Parse(s) == Eaten(ParseArgument(op, x), |name| + |x| + 2)
  {
    FindUnique(s, '(', |name|);
    MatchIffBalanced(s, |name|, |name| + 1 + |x|);
    ScannedParses(s, name, op, |name| + |x| + 2);
  }

  lemma {:induction false} CommText(x: string, rest: string)
    requires Balanced(x)
    ensures Parse("comm(" + x + ")" + rest) == Ok((Comm(x), |x| + 6))
  {
    CallParses("comm", CommOp, x, rest);
    assert "comm" + "(" == "comm(";
  }

  lemma {:induction false} EnvKText(x: string, rest: string)
    requires Balanced(x)
    ensures Parse("env_k(" + x + ")" + rest) == Ok((EnvironK(x), |x| + 7))
  {
    CallParses("env_k", EnvironKOp, x, rest);
    assert "env_k" + "(" == "env_k(";
  }

  /** The argument of `true` and `false` is ignored. */
  lemma {:induction false} TrueText(x: string, rest: string)
    requires Balanced(x)
    ensures Parse("true(" + x + ")" + rest) == Ok((True, |x| + 6))
  {
    CallParses("true", TrueOp, x, rest);
    assert "true" + "(" == "true(";
  }

  lemma {:induction false} FalseText(x: string, rest: string)
    requires Balanced(x)
    ensures Parse("false(" + x + ")" + rest) == Ok((False, |x| + 7))
  {
    CallParses("false", FalseOp, x, rest);
    assert "false" + "(" == "false(";
  }

  // ----- no calls

  /** The operators are these eleven names and no others. */
  lemma {:induction false} OtherNamesRejected(name: string, rest: string)
    requires '(' !in name
    requires name !in {"and", "or", "not", "descendants", "comm", "pid", "uid", "env_kv", "env_k", "true", "false"}
    ensures Parse(name + "(" + rest).Err?
  {
    UnknownOperatorRejected(name, rest);
  }

  lemma {:induction false} NoOpeningRejected(s: string)
    requires '(' !in s
    ensures Parse(s) == Err(MissingOpening)
  {
  }

  /** From an opening parenthesis on, the scan never finds one closing too many. */
  lemma {:induction false} NeverTooMany(s: string, i: nat, counter: nat)
    requires counter > 0 || (i < |s| && s[i] == '(')
    ensures MatchFrom(s, i, counter) != Err(TooManyClosing)
    decreases |s| - i
  {
    if i < |s| && counter + Weight(s[i]) > 0 {
      NeverTooMany(s, i + 1, counter + Weight(s[i]));
    }
  }

  lemma {:induction false} NeverCloses(s: string, opening: nat, x: string, closing: nat)
    requires opening < |s| && s[opening] == '(' && s[opening + 1..] == x
    requires forall k | 0 <= k < |x| :: x[k] == ')' ==> !Balanced(x[..k])
    ensures MatchFrom(s, opening, 0) != Ok(closing)
  {
    MatchIffBalanced(s, opening, closing);
    if opening < closing < |s| {
      var k := closing - opening - 1;
      assert s[opening + 1..closing] == x[..k] && s[closing] == x[k];
    }
  }

  /** A call that is never closed, whatever its name. */
  lemma {:induction false} UnclosedRejected(name: string, x: string)
    requires '(' !in name
    requires forall k | 0 <= k < |x| :: x[k] == ')' ==> !Balanced(x[..k])
    ensures Parse(name + "(" + x) == Err(Unmatched(Unbalanced))
  {
    var s := name + "(" + x;
    assert s[|name|] == '(' && s[..|name|] == name && s[|name| + 1..] == x;
    FindUnique(s, '(', |name|);
    match MatchFrom(s, |name|, 0) {
      case Ok(closing) => NeverCloses(s, |name|, x, closing);
      case Err(e) =>
        NeverTooMany(s, |name|, 0);
        assert e.Unbalanced? || e.TooManyClosing?;
    }
    assert Parse(s) == ParseCall(s, |name|);
  }

  // ----- numbers

  /** Ten to the power of `n`. */
  function Power10(n: nat): nat {
    if n == 0 then 1 else 10 * Power10(n - 1)
  }

  /** Decimal notation is positional: each digit counts, its weight being given by the number of digits after it. */
  lemma {:induction false} Positional(a: string, b: string)
    requires IsDigits(a) && IsDigits(b)
    ensures IsDigits(a + b) && DigitsValue(a + b) == DigitsValue(a) * Power10(|b|) + DigitsValue(b)
  {
    if b == [] {
      assert a + b == a;
    } else {
      var front, d := b[..|b| - 1], b[|b| - 1] as int - '0' as int;
      assert (a + b)[..|a + b| - 1] == a + front && (a + b)[|a + b| - 1] == b[|b| - 1];
      Positional(a, front);
      Shift(DigitsValue(a), Power10(|front|), DigitsValue(front));
      assert DigitsValue(a + b) == 10 * DigitsValue(a + front) + d;
    }
  }

  lemma {:induction false} Shift(x: nat, y: nat, z: nat)
    ensures 10 * (x * y + z) == x * (10 * y) + 10 * z
  {
  }

  lemma {:induction false} OneDigit(c: char)
    requires '0' <= c <= '9'
    ensures IsDigits([c]) && DigitsValue([c]) == c as int - '0' as int
  {
    assert [c][..0] == [];
  }

  lemma {:induction false} DigitsBalanced(x: string)
    requires forall c <- x :: c == '-' || c == '+' || '0' <= c <= '9'
    ensures Balanced(x)
  {
    NeutralBalanced(x);
  }

  lemma {:induction false} SignedBalanced(sign: string, x: string)
    requires sign in {"", "+", "-"} && IsDigits(x)
    ensures Balanced(sign + x)
  {
    forall c <- sign + x ensures c == '-' || c == '+' || '0' <= c <= '9' {
      assert c in sign || c in x;
    }
    DigitsBalanced(sign + x);
  }

  /** The value of digits with a sign, an absent one being a plus. */
  function Signed(sign: string, x: string): int
    requires IsDigits(x)
  {
    if sign == "-" then 0 - DigitsValue(x) else DigitsValue(x)
  }

  lemma {:induction false} SignedParses(sign: string, x: string)
    requires sign in {"", "+", "-"} && IsDigits(x) && x != []
    ensures ParseInt(sign + x, true) == Some(Signed(sign, x))
    ensures ParseInt(sign + x, false) == if sign == "-" then None else Some(Signed(sign, x))
  {
    assert '0' <= x[0] <= '9';
    if sign == "" {
      assert sign + x == x;
    } else {
      assert (sign + x)[1..] == x;
      assert sign == "-" ==> (sign + x)[0] == '-';
      assert sign == "+" ==> (sign + x)[0] == '+';
    }
  }

  /** Anything that is not an optional sign and digits is no number. */
  lemma {:induction false} OthersAreNoNumber(x: string, signed: bool)
    requires ParseInt(x, signed).Some?
    ensures exists sign, digits ::
              && x == sign + digits && sign in {"", "+", "-"} && IsDigits(digits) && digits != []
              && (signed || sign != "-")
  {
    if x[0] == '+' {
      assert x == "+" + x[1..];
    } else if x[0] == '-' && signed {
      assert x == "-" + x[1..];
    } else {
      assert x == "" + x;
    }
  }

  lemma {:induction false} UidArgument(x: string)
    ensures ParseArgument(UidOp, x)
         == match ParseInt(x, false)
            case None => Err(NotANumber(x))
            case Some(n) => if 0 <= n <= 4294967295 then Ok(Uid(n)) else Err(NotANumber(x))
  {
  }

  lemma {:induction false} PidArgument(x: string)
    ensures ParseArgument(PidOp, x)
         == match ParseInt(x, true)
            case None => Err(NotANumber(x))
            case Some(n) => if -2147483648 <= n <= 2147483647 then Ok(Pid(n)) else Err(NotANumber(x))
  {
  }

  lemma {:induction false} DescendantsArgument(x: string)
    ensures ParseArgument(DescendantsOp, x)
         == match ParseInt(x, true)
            case None => Err(NotANumber(x))
            case Some(n) => if -2147483648 <= n <= 2147483647 then Ok(Descendants(n)) else Err(NotANumber(x))
  {
  }

  lemma {:induction false} UidLeaf(sign: string, x: string)
    requires sign in {"", "+", "-"} && IsDigits(x) && x != []
    ensures var n := DigitsValue(x);
            var r := ParseArgument(UidOp, sign + x);
            if sign != "-" && n <= 4294967295 then r == Ok(Uid(n)) else r.Err?
  {
    SignedParses(sign, x);
    UidArgument(sign + x);
  }

  lemma {:induction false} PidLeaf(sign: string, x: string)
    requires sign in {"", "+", "-"} && IsDigits(x) && x != []
    ensures var n := if sign == "-" then 0 - DigitsValue(x) else DigitsValue(x);
            var r := ParseArgument(PidOp, sign + x);
            if -2147483648 <= n <= 2147483647 then r == Ok(Pid(n)) else r.Err?
  {
    SignedParses(sign, x);
    PidArgument(sign + x);
  }

  lemma {:induction false} DescendantsLeaf(sign: string, x: string)
    requires sign in {"", "+", "-"} && IsDigits(x) && x != []
    ensures var n := if sign == "-" then 0 - DigitsValue(x) else DigitsValue(x);
            var r := ParseArgument(DescendantsOp, sign + x);
            if -2147483648 <= n <= 2147483647 then r == Ok(Descendants(n)) else r.Err?
  {
    SignedParses(sign, x);
    DescendantsArgument(sign + x);
  }

  lemma {:induction false} UidCall(x: string, rest: string)
    requires Balanced(x)
    ensures Parse("uid(" + x + ")" + rest) == Eaten(ParseArgument(UidOp, x), |x| + 5)
  {
    CallParses("uid", UidOp, x, rest);
    assert "uid" + "(" == "uid(";
  }

  lemma {:induction false} PidCall(x: string, rest: string)
    requires Balanced(x)
    ensures Parse("pid(" + x + ")" + rest) == Eaten(ParseArgument(PidOp, x), |x| + 5)
  {
    CallParses("pid", PidOp, x, rest);
    assert "pid" + "(" == "pid(";
  }

  lemma {:induction false} DescendantsCall(x: string, rest: string)
    requires Balanced(x)
    ensures Parse("descendants(" + x + ")" + rest) == Eaten(ParseArgument(DescendantsOp, x), |x| + 13)
  {
    CallParses("descendants", DescendantsOp, x, rest);
    assert "descendants" + "(" == "descendants(";
  }

  /** A uid: digits, possibly after a plus, for a number of 32 bits. */
  lemma {:induction false} UidText(sign: string, x: string, rest: string)
    requires sign in {"", "+", "-"} && IsDigits(x) && x != []
    ensures var n := DigitsValue(x);
            var r := Parse("uid(" + (sign + x) + ")" + rest);
            if sign != "-" && n <= 4294967295 then r == Ok((Uid(n), |sign| + |x| + 5)) else r.Err?
  {
    SignedBalanced(sign, x);
    UidLeaf(sign, x);
    UidCall(sign + x, rest);
  }

  /** A pid: digits, possibly after a sign, for a signed number of 32 bits. */
  lemma {:induction false} PidText(sign: string, x: string, rest: string)
    requires sign in {"", "+", "-"} && IsDigits(x) && x != []
    ensures var n := if sign == "-" then 0 - DigitsValue(x) else DigitsValue(x);
            var r := Parse("pid(" + (sign + x) + ")" + rest);
            if -2147483648 <= n <= 2147483647 then r == Ok((Pid(n), |sign| + |x| + 5)) else r.Err?
  {
    SignedBalanced(sign, x);
    PidLeaf(sign, x);
    PidCall(sign + x, rest);
  }

  lemma {:induction false} DescendantsText(sign: string, x: string, rest: string)
    requires sign in {"", "+", "-"} && IsDigits(x) && x != []
    ensures var n := if sign == "-" then 0 - DigitsValue(x) else DigitsValue(x);
            var r := Parse("descendants(" + (sign + x) + ")" + rest);
            if -2147483648 <= n <= 2147483647 then r == Ok((Descendants(n), |sign| + |x| + 13)) else r.Err?
  {
    SignedBalanced(sign, x);
    DescendantsLeaf(sign, x);
    DescendantsCall(sign + x, rest);
  }

  /** Any other argument of the three is invalid. */
  lemma {:induction false} NotANumberRejected(x: string, rest: string)
    requires Balanced(x)
    requires forall sign, digits | x == sign + digits && sign in {"", "+", "-"} && IsDigits(digits) :: digits == []
    ensures Parse("uid(" + x + ")" + rest).Err?
    ensures Parse("pid(" + x + ")" + rest).Err?
    ensures Parse("descendants(" + x + ")" + rest).Err?
  {
    NoNumber(x, true);
    NoNumber(x, false);
    NoNumberLeaf(x);
    UidCall(x, rest);
    PidCall(x, rest);
    DescendantsCall(x, rest);
  }

  lemma {:induction false} NoNumberLeaf(x: string)
    requires ParseInt(x, true) == None && ParseInt(x, false) == None
    ensures ParseArgument(UidOp, x).Err? && ParseArgument(PidOp, x).Err? && ParseArgument(DescendantsOp, x).Err?
  {
  }

  lemma {:induction false} NoNumber(x: string, signed: bool)
    requires forall sign, digits | x == sign + digits && sign in {"", "+", "-"} && IsDigits(digits) :: digits == []
    ensures ParseInt(x, signed) == None
  {
    if ParseInt(x, signed).Some? {
      OthersAreNoNumber(x, signed);
    }
  }

  // ----- key and value

  /** A blank of ASCII: the space, or one of the five characters from tab to carriage return. */
  predicate IsBlank(c: char) {
    c in {' ', '\t', '\n', 11 as char, 12 as char, '\r'}
  }

  predicate AllBlank(s: string) {
    forall i | 0 <= i < |s| :: IsBlank(s[i])
  }

  /** Neither the first nor the last character is a blank. */
  predicate NoOuterBlank(s: string) {
    s != [] ==> !IsBlank(s[0]) && !IsBlank(s[|s| - 1])
  }

  lemma {:induction false} BlankIsSpace(c: char)
    ensures IsBlank(c) <==> IsSpace(c)
  {
  }

  lemma {:induction false} DropLeading(a: string, s: string)
    requires AllBlank(a) && (s != [] ==> !IsBlank(s[0]))
    ensures TrimStart(a + s) == s
  {
    if a == [] {
      assert a + s == s;
    } else {
      assert (a + s)[0] == a[0] && (a + s)[1..] == a[1..] + s;
      DropLeading(a[1..], s);
    }
  }

  lemma {:induction false} DropTrailing(s: string, b: string)
    requires AllBlank(b) && (s != [] ==> !IsBlank(s[|s| - 1]))
    ensures TrimEnd(s + b) == s
  {
    if b == [] {
      assert s + b == s;
    } else {
      var last := |b| - 1;
      assert (s + b)[|s + b| - 1] == b[last] && (s + b)[..|s + b| - 1] == s + b[..last];
      DropTrailing(s, b[..last]);
    }
  }

  /** Trimming takes away exactly the blanks around. */
  lemma {:induction false} Trimmed(a: string, s: string, b: string)
    requires AllBlank(a) && AllBlank(b) && NoOuterBlank(s)
    ensures Trim(a + s + b) == s
  {
    if s == [] {
      assert a + s + b == (a + b) + [];
      DropLeading(a + b, []);
    } else {
      assert a + s + b == a + (s + b) && (s + b)[0] == s[0];
      DropLeading(a, s + b);
      DropTrailing(s, b);
    }
  }

  /**
   The key and the value of `env_kv` are what is before the first comma and between the first two, without the blanks
   around each; what follows a second comma is ignored.
   */
  lemma {:induction false} EnvKVText(
    a: string, key: string, b: string, c: string, value: string, d: string, tail: string, rest: string)
    requires AllBlank(a) && AllBlank(b) && AllBlank(c) && AllBlank(d) && NoOuterBlank(key) && NoOuterBlank(value)
    requires ',' !in key && ',' !in value && (tail == "" || tail[0] == ',')
    requires Balanced(a + key + b + "," + (c + value + d) + tail)
    ensures var x := a + key + b + "," + (c + value + d) + tail;
            Parse("env_kv(" + x + ")" + rest) == Ok((EnvironKV(key, value), |x| + 8))
  {
    var p, q := a + key + b, c + value + d;
    Trimmed(a, key, b);
    Trimmed(c, value, d);
    NoComma(a, key, b);
    NoComma(c, value, d);
    KeyValueLeaf(p, q, tail);
    EnvKVCall(p + "," + q + tail, rest);
  }

  lemma {:induction false} EnvKVCall(x: string, rest: string)
    requires Balanced(x)
    ensures Parse("env_kv(" + x + ")" + rest) == Eaten(ParseLeaf(EnvironKVOp, x), |x| + 8)
  {
    CallParses("env_kv", EnvironKVOp, x, rest);
    assert "env_kv" + "(" == "env_kv(";
  }

  lemma {:induction false} NoComma(a: string, s: string, b: string)
    requires AllBlank(a) && AllBlank(b) && ',' !in s
    ensures ',' !in a + s + b
  {
    forall i | 0 <= i < |a + s + b| ensures (a + s + b)[i] != ',' {
      if i < |a| {
        assert IsBlank(a[i]);
      } else if i < |a| + |s| {
        assert (a + s + b)[i] == s[i - |a|];
      } else {
        assert IsBlank(b[i - |a| - |s|]);
      }
    }
  }

  lemma {:induction false} NotFound(s: string, c: char)
    requires c !in s
    ensures Find(s, c) == None
  {
  }

  lemma {:induction false} KeyValueLeaf(p: string, q: string, tail: string)
    requires ',' !in p && ',' !in q && (tail == "" || tail[0] == ',')
    ensures ParseLeaf(EnvironKVOp, p + "," + q + tail) == Ok(EnvironKV(Trim(p), Trim(q)))
  {
    var x := p + "," + q + tail;
    assert x[..|p|] == p && x[|p|] == ',' && x[|p| + 1..] == q + tail;
    FindUnique(x, ',', |p|);
    if tail == "" {
      assert q + tail == q;
      NotFound(q, ',');
    } else {
      assert (q + tail)[..|q|] == q;
      FindUnique(q + tail, ',', |q|);
    }
  }

  /** Without a comma there is no value. */
  lemma {:induction false} NoValueRejected(x: string, rest: string)
    requires Balanced(x) && ',' !in x
    ensures Parse("env_kv(" + x + ")" + rest).Err?
  {
    EnvKVCall(x, rest);
    NotFound(x, ',');
  }

  // ----- negation and lists

  /** The argument of `not` is one filter; balanced text after it is ignored. */
  lemma {:induction false} NotText(t: string, f: Filter, more: string, rest: string)
    requires Parse(t) == Ok((f, |t|)) && Balanced(more)
    ensures Parse("not(" + (t + more) + ")" + rest) == Ok((Not(f), |t| + |more| + 5))
  {
    EatenIsBalanced(t, f, |t|);
    assert t[..|t|] == t;
    BalancedConcat(t, more);
    Locality(t, t + more, f, |t|);
    CallParses("not", NotOp, t + more, rest);
    assert "not" + "(" == "not(";
  }

  /** Each text is that of its filter, all of it. */
  ghost predicate TextsParse(texts: seq<string>, fs: seq<Filter>) {
    |texts| == |fs| && forall i | 0 <= i < |fs| :: Parse(texts[i]) == Ok((fs[i], |texts[i]|))
  }

  lemma {:induction false} TextsMatch(texts: seq<string>, fs: seq<Filter>)
    requires TextsParse(texts, fs)
    ensures NamesMatch(texts, fs)
  {
    if texts != [] {
      TextsMatch(texts[1..], fs[1..]);
    }
  }

  lemma {:induction false} ListParses(list: string, texts: seq<string>, fs: seq<Filter>)
    requires TextsParse(texts, fs) && Accounts(list, texts)
    ensures ParseList(list) == Ok(Items(fs, texts))
  {
    TextsMatch(texts, fs);
    AccountedParses(list, Items(fs, texts));
  }

  /** The argument of `and` is a list of filters, with one character of any kind between neighbours. */
  lemma {:induction false} AndText(list: string, texts: seq<string>, fs: seq<Filter>, rest: string)
    requires TextsParse(texts, fs) && Accounts(list, texts) && Balanced(list)
    ensures Parse("and(" + list + ")" + rest) == Ok((And(fs), |list| + 5))
  {
    ListParses(list, texts, fs);
    CallParses("and", AndOp, list, rest);
    assert "and" + "(" == "and(";
  }

  lemma {:induction false} OrText(list: string, texts: seq<string>, fs: seq<Filter>, rest: string)
    requires TextsParse(texts, fs) && Accounts(list, texts) && Balanced(list)
    ensures Parse("or(" + list + ")" + rest) == Ok((Or(fs), |list| + 4))
  {
    ListParses(list, texts, fs);
    CallParses("or", OrOp, list, rest);
    assert "or" + "(" == "or(";
  }

  /** Neither takes an empty list. */
  lemma {:induction false} EmptyListRejected(rest: string)
    ensures Parse("and(" + "" + ")" + rest).Err? && Parse("or(" + "" + ")" + rest).Err?
  {
    NeutralBalanced("");
    CallParses("and", AndOp, "", rest);
    CallParses("or", OrOp, "", rest);
    assert "and" + "(" == "and(" && "or" + "(" == "or(";
  }

  // ----- balance

  function Places(s: string, c: char): set<nat> {
    set i: nat | i < |s| && s[i] == c
  }

  lemma {:induction false} PlacesPush(s: string, c: char)
    requires s != []
    ensures |Places(s, c)| == |Places(s[..|s| - 1], c)| + if s[|s| - 1] == c then 1 else 0
  {
    var before, after := Places(s[..|s| - 1], c), Places(s, c);
    if s[|s| - 1] == c {
      assert after == before + {|s| - 1};
    } else {
      assert after == before;
    }
  }

  /** The depth is the number of opening parentheses less that of the closing ones. */
  lemma {:induction false} DepthIsCount(s: string)
    ensures Depth(s) == |Places(s, '(')| - |Places(s, ')')|
  {
    if s == [] {
      assert Places(s, '(') == {} && Places(s, ')') == {};
    } else {
      DepthIsCount(s[..|s| - 1]);
      PlacesPush(s, '(');
      PlacesPush(s, ')');
    }
  }

  /** Balanced text has as many of both, and no beginning has more closing ones. */
  lemma {:induction false} BalancedIffCounts(s: string)
    ensures Balanced(s)
       <==> && |Places(s, '(')| == |Places(s, ')')|
            && forall k: nat | k <= |s| :: |Places(s[..k], ')')| <= |Places(s[..k], '(')|
  {
    DepthIsCount(s);
    forall k: nat | k <= |s| ensures DepthAt(s, k) >= 0 <==> |Places(s[..k], ')')| <= |Places(s[..k], '(')| {
      DepthIsCount(s[..k]);
    }
  }
}
