/** The filter language: its syntax trees and its recursive-descent parser. */
module Filters {
  import opened Wrappers
  import opened Decimal
  import opened Parentheses

  datatype Filter =
    | Not(inner: Filter)
    | True
    | False
    | And(children: seq<Filter>)
    | Or(children: seq<Filter>)
    | Comm(comm: string)
    | Uid(uid: u32)
    | Descendants(pid: i32)
    | Pid(pid: i32)
    | EnvironK(key: string)
    | EnvironKV(key: string, value: string)

  datatype Operator =
    | NotOp
    | TrueOp
    | FalseOp
    | AndOp
    | OrOp
    | CommOp
    | UidOp
    | DescendantsOp
    | PidOp
    | EnvironKOp
    | EnvironKVOp

  /** The names the parser's `match` knows. */
  function Spelling(op: Operator): string {
    match op
    case NotOp => "not"
    case TrueOp => "true"
    case FalseOp => "false"
    case AndOp => "and"
    case OrOp => "or"
    case CommOp => "comm"
    case UidOp => "uid"
    case DescendantsOp => "descendants"
    case PidOp => "pid"
    case EnvironKOp => "env_k"
    case EnvironKVOp => "env_kv"
  }

  function OperatorIn(f: Filter): Operator {
    match f
    case Not(_) => NotOp
    case True => TrueOp
    case False => FalseOp
    case And(_) => AndOp
    case Or(_) => OrOp
    case Comm(_) => CommOp
    case Uid(_) => UidOp
    case Descendants(_) => DescendantsOp
    case Pid(_) => PidOp
    case EnvironK(_) => EnvironKOp
    case EnvironKV(_, _) => EnvironKVOp
  }

  function OperatorOf(name: string): (r: Option<Operator>)
    ensures r.Some? ==> Spelling(r.value) == name
  {
    if name == "and" then Some(AndOp)
    else if name == "or" then Some(OrOp)
    else if name == "not" then Some(NotOp)
    else if name == "descendants" then Some(DescendantsOp)
    else if name == "comm" then Some(CommOp)
    else if name == "pid" then Some(PidOp)
    else if name == "uid" then Some(UidOp)
    else if name == "env_kv" then Some(EnvironKVOp)
    else if name == "env_k" then Some(EnvironKOp)
    else if name == "true" then Some(TrueOp)
    else if name == "false" then Some(FalseOp)
    else None
  }

  datatype ParseError =
    | MissingOpening
    | Unmatched(error: ScanError)
    | BadChild(text: string)
    | NotANumber(text: string)
    | MissingValue
    | UnknownFilter(name: string)
    | NotAscii

  /** Filters read one after the other, and the text each was read from. */
  datatype Items = Items(filters: seq<Filter>, texts: seq<string>)

  // ----- text helpers (`str::find`, `str::split`, `str::trim`)

  function Find(s: string, c: char): (r: Option<nat>)
    ensures r.Some? ==> r.value < |s| && s[r.value] == c && c !in s[..r.value]
    ensures r.None? ==> c !in s
  {
    if s == [] then None
    else if s[0] == c then Some(0)
    else
      match Find(s[1..], c)
      case None => None
      case Some(i) => assert s[..i + 1] == [s[0]] + s[1..][..i]; Some(i + 1)
  }

  /** One step of the iterator of `str::split`: the piece before `c`, and the text after `c` if there is any. */
  function NextPiece(s: string, c: char): (string, Option<string>) {
    match Find(s, c)
    case None => (s, None)
    case Some(i) => (s[..i], Some(s[i + 1..]))
  }

  predicate IsSpace(c: char) {
    c == ' ' || 9 <= c as int <= 13
  }

  function TrimStart(s: string): string {
    if s != [] && IsSpace(s[0]) then TrimStart(s[1..]) else s
  }

  function TrimEnd(s: string): string {
    if s != [] && IsSpace(s[|s| - 1]) then TrimEnd(s[..|s| - 1]) else s
  }

  function Trim(s: string): string {
    TrimEnd(TrimStart(s))
  }

  // ----- the parser as a function

  /** One filter at the start of `input`, and how many characters it took. */
  function Parse(input: string): (r: Result<(Filter, nat), ParseError>)
    ensures r.Ok? ==> 0 < r.value.1 <= |input|
    decreases |input|, 1
  {
    match Find(input, '(')
    case None => Err(MissingOpening)
    case Some(opening) => ParseCall(input, opening)
  }

  /** The same, once the opening parenthesis is found. */
  function ParseCall(input: string, opening: nat): (r: Result<(Filter, nat), ParseError>)
    requires opening < |input| && input[opening] == '('
    ensures r.Ok? ==> 0 < r.value.1 <= |input|
    decreases |input|, 0
  {
    match MatchFrom(input, opening, 0)
    case Err(e) => Err(Unmatched(e))
    case Ok(closing) =>
      MatchIffBalanced(input, opening, closing);
      match OperatorOf(input[..opening])
      case None => Err(UnknownFilter(input[..opening]))
      case Some(op) =>
        var filter :- ParseArgument(op, input[opening + 1..closing]);
        Ok((filter, closing + 1))
  }

  function ParseArgument(op: Operator, inner: string): (r: Result<Filter, ParseError>)
    ensures r.Ok? ==> OperatorIn(r.value) == op
    decreases |inner|, 3
  {
    match op
    case AndOp =>
      var items :- ParseList(inner);
      Ok(And(items.filters))
    case OrOp =>
      var items :- ParseList(inner);
      Ok(Or(items.filters))
    case NotOp =>
      var (filter, _) :- Parse(inner);
      Ok(Not(filter))
    case _ => ParseLeaf(op, inner)
  }

  /** Operators whose argument is plain text. */
  function ParseLeaf(op: Operator, inner: string): (r: Result<Filter, ParseError>)
    requires !op.AndOp? && !op.OrOp? && !op.NotOp?
    ensures r.Ok? ==> OperatorIn(r.value) == op
  {
    match op
    case DescendantsOp =>
      (match ParseI32(inner) case Some(n) => Ok(Descendants(n)) case None => Err(NotANumber(inner)))
    case CommOp => Ok(Comm(inner))
    case PidOp =>
      (match ParseI32(inner) case Some(n) => Ok(Pid(n)) case None => Err(NotANumber(inner)))
    case UidOp =>
      (match ParseU32(inner) case Some(n) => Ok(Uid(n)) case None => Err(NotANumber(inner)))
    case EnvironKVOp =>
      var (key, rest) := NextPiece(inner, ',');
      (match rest
       case None => Err(MissingValue)
       case Some(after) => Ok(EnvironKV(Trim(key), Trim(NextPiece(after, ',').0))))
    case EnvironKOp => Ok(EnvironK(inner))
    case TrueOp => Ok(True)
    case FalseOp => Ok(False)
  }

  /** Filters one after the other, one character being skipped after each but the last. */
  function ParseList(input: string): Result<Items, ParseError>
    decreases |input|, 2
  {
    match Parse(input)
    case Err(_) => Err(BadChild(input))
    case Ok((filter, ate)) =>
      var first := Items([filter], [input[..ate]]);
      if ate + 1 > |input| then Ok(first)
      else Resume(first, ParseList(input[ate + 1..]))
  }

  /** What a list parses to, once `done` was read and `rest` is what the remaining text gives. */
  function Resume(done: Items, rest: Result<Items, ParseError>): Result<Items, ParseError> {
    match rest
    case Err(e) => Err(e)
    case Ok(items) => Ok(Items(done.filters + items.filters, done.texts + items.texts))
  }

  function Push(done: Items, filter: Filter, text: string): Items {
    Items(done.filters + [filter], done.texts + [text])
  }

  // ----- the parser as it runs

  lemma {:induction false} ResumeNothing(rest: Result<Items, ParseError>)
    ensures Resume(Items([], []), rest) == rest
  {
    if rest.Ok? {
      assert [] + rest.value.filters == rest.value.filters;
      assert [] + rest.value.texts == rest.value.texts;
    }
  }

  lemma {:induction false} ResumeAppend(done: Items, filter: Filter, text: string, rest: Result<Items, ParseError>)
    ensures Resume(done, Resume(Items([filter], [text]), rest)) == Resume(Push(done, filter, text), rest)
  {
    if rest.Ok? {
      assert done.filters + ([filter] + rest.value.filters) == done.filters + [filter] + rest.value.filters;
      assert done.texts + ([text] + rest.value.texts) == done.texts + [text] + rest.value.texts;
    }
  }

  /** Reading one more filter moves it from what is left to what is done. */
  lemma {:induction false} ResumeStep(done: Items, text: string, filter: Filter, ate: nat)
    requires Parse(text) == Ok((filter, ate))
    ensures Resume(done, ParseList(text))
         == if ate + 1 > |text| then Ok(Push(done, filter, text[..ate]))
            else Resume(Push(done, filter, text[..ate]), ParseList(text[ate + 1..]))
  {
    if ate + 1 <= |text| {
      assert ParseList(text) == Resume(Items([filter], [text[..ate]]), ParseList(text[ate + 1..]));
      ResumeAppend(done, filter, text[..ate], ParseList(text[ate + 1..]));
    }
  }

  /** An operator, the text between its parentheses and the number of characters up to the closing one. */
  datatype Call = Call(op: Operator, inner: string, ate: nat)

  /** The first half of `parse`: the two scans, and the operator they delimit. */
  method ReadCall(input: string) returns (r: Result<Call, ParseError>)
    ensures match r
            case Err(e) => Parse(input) == Err(e)
            case Ok(call) =>
              && |call.inner| < call.ate <= |input|
              && Parse(input) == Eaten(ParseArgument(call.op, call.inner), call.ate)
  {
    var found := Find(input, '(');
    if found == None {
      return Err(MissingOpening);
    }
    var opening := found.value;
    var name := input[..opening];
    ghost var parsed := ParseCall(input, opening);
    var matching := FindMatchPar(input, opening);
    if matching.Err? {
      return Err(Unmatched(matching.error));
    }
    var closing := matching.value;
    MatchIffBalanced(input, opening, closing);
    var inner := input[opening + 1..closing];
    var ate := closing + 1;
    var known := OperatorOf(name);
    if known == None {
      return Err(UnknownFilter(name));
    }
    return Ok(Call(known.value, inner, ate));
  }

  function Eaten(filter: Result<Filter, ParseError>, ate: nat): Result<(Filter, nat), ParseError> {
    match filter
    case Err(e) => Err(e)
    case Ok(f) => Ok((f, ate))
  }

  method ParseFilter(input: string) returns (r: Result<(Filter, nat), ParseError>)
    ensures r == Parse(input)
    decreases |input|, 0
  {
    var read := ReadCall(input);
    if read.Err? {
      return Err(read.error);
    }
    var Call(op, inner, ate) := read.value;
    ghost var argument := ParseArgument(op, inner);
    if op.AndOp? || op.OrOp? {
      var inners := ParseChildren(inner);
      if inners.Err? {
        return Err(inners.error);
      }
      return Ok((if op.AndOp? then And(inners.value) else Or(inners.value), ate));
    } else if op.NotOp? {
      var parsed := ParseFilter(inner);
      if parsed.Err? {
        return Err(parsed.error);
      }
      return Ok((Not(parsed.value.0), ate));
    } else {
      var leaf := ParseLeaf(op, inner);
      if leaf.Err? {
        return Err(leaf.error);
      }
      return Ok((leaf.value, ate));
    }
  }

  /** The loop over the arguments of `and` and `or`. */
  method ParseChildren(inner: string) returns (r: Result<seq<Filter>, ParseError>)
    ensures match ParseList(inner)
            case Ok(items) => r == Ok(items.filters) && items.filters != []
            case Err(e) => r == Err(e)
    decreases |inner|, 1
  {
    var from := 0;
    var inners: seq<Filter> := [];
    ghost var items := Items([], []);
    ghost var all := ParseList(inner);
    assert inner[0..] == inner;
    ResumeNothing(ParseList(inner));
    while true
      invariant 0 <= from <= |inner|
      invariant inners == items.filters
      invariant all == Resume(items, ParseList(inner[from..]))
      decreases |inner| - from
    {
      ghost var text := inner[from..];
      var parsed := ParseFilter(inner[from..]);
      if parsed.Err? {
        return Err(BadChild(inner[from..]));
      }
      var (child, innerAte) := parsed.value;
      ResumeStep(items, text, child, innerAte);
      inners := inners + [child];
      items := Push(items, child, text[..innerAte]);
      from := from + innerAte + 1;
      if from > |inner| {
        break;
      }
      assert text[innerAte + 1..] == inner[from..];
    }
    // the "Empty filter" branch of the source cannot be taken
    assert inners != [];
    return Ok(inners);
  }
}
