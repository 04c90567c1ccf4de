/** Which processes a filter accepts. */
module Evaluation {
  import opened Wrappers
  import opened Filters
  import opened Processes

  /** Unreadable fields make `comm`, `uid` and `env_*` filters refuse the process. */
  ghost predicate Eval(f: Filter, p: Process, links: set<Edge>) {
    match f
    case Not(g) => !Eval(g, p, links)
    case True => true
    case False => false
    case And(fs) => forall g <- fs :: Eval(g, p, links)
    case Or(fs) => exists g <- fs :: Eval(g, p, links)
    case Comm(comm) => p.comm == Some(comm)
    case Uid(uid) => p.uid == Some(uid)
    case Descendants(pid) => Reaches(links, pid, p.pid)
    case Pid(pid) => p.pid == pid
    case EnvironK(key) => p.environ.Some? && key in p.environ.value
    case EnvironKV(key, value) =>
      p.environ.Some? && key in p.environ.value && p.environ.value[key] == value
  }

  method EvalFilter(f: Filter, p: Process, tree: ProcessTree) returns (b: bool)
    ensures b == Eval(f, p, tree.Links())
    ensures f.False? ==> !b
    ensures f.True? ==> b
    ensures f.Comm? ==>
      match p.comm case None => !b case Some(comm) => b <==> comm == f.comm
    ensures f.Uid? ==>
      match p.uid case None => !b case Some(uid) => b <==> uid == f.uid
    ensures f.Pid? ==> (b <==> p.pid == f.pid)
    ensures f.EnvironK? ==>
      match p.environ case None => !b case Some(environ) => b <==> f.key in environ.Keys
    ensures f.EnvironKV? ==>
      match p.environ
      case None => !b
      case Some(environ) => if f.key in environ then b <==> environ[f.key] == f.value else !b
    ensures f.Descendants? ==> (b <==> exists path :: |path| >= 2 && Connects(tree.Links(), path, f.pid, p.pid))
    decreases f
  {
    match f {
      case Not(g) =>
        var inner := EvalFilter(g, p, tree);
        b := !inner;
      case True => b := true;
      case False => b := false;
      case And(children) =>
        for i := 0 to |children|
          invariant forall j | 0 <= j < i :: Eval(children[j], p, tree.Links())
        {
          var accepted := EvalFilter(children[i], p, tree);
          if !accepted {
            return false;
          }
        }
        b := true;
      case Or(children) =>
        for i := 0 to |children|
          invariant forall j | 0 <= j < i :: !Eval(children[j], p, tree.Links())
        {
          var accepted := EvalFilter(children[i], p, tree);
          if accepted {
            return true;
          }
        }
        b := false;
      case Comm(comm) => b := p.comm == Some(comm);
      case Uid(uid) => b := p.uid == Some(uid);
      case Descendants(pid) =>
        var family := tree.Descendants(pid);
        b := p.pid in family;
      case Pid(pid) => b := p.pid == pid;
      case EnvironK(key) => b := p.environ.Some? && key in p.environ.value;
      case EnvironKV(key, value) =>
        b := p.environ.Some? && key in p.environ.value && p.environ.value[key] == value;
    }
  }

  // ----- laws of evaluation

  function Negated(fs: seq<Filter>): (ns: seq<Filter>)
    ensures |ns| == |fs| && forall i | 0 <= i < |fs| :: ns[i] == Not(fs[i])
  {
    seq(|fs|, i requires 0 <= i < |fs| => Not(fs[i]))
  }

  /** A negation accepts exactly what its argument refuses. */
  lemma {:induction false} NotRefuses(f: Filter, p: Process, links: set<Edge>)
    ensures Eval(Not(f), p, links) <==> !Eval(f, p, links)
    ensures Eval(Not(Not(f)), p, links) <==> Eval(f, p, links)
  {
  }

  /** An `and` without children accepts everything, one more child is one more condition. */
  lemma {:induction false} AndCons(f: Filter, fs: seq<Filter>, p: Process, links: set<Edge>)
    ensures Eval(And([]), p, links)
    ensures Eval(And([f] + fs), p, links) <==> Eval(f, p, links) && Eval(And(fs), p, links)
  {
    assert ([f] + fs)[0] == f;
    forall g <- fs ensures g in [f] + fs {}
    if Eval(f, p, links) && Eval(And(fs), p, links) {
      forall g <- [f] + fs ensures Eval(g, p, links) {
        assert g == f || g in fs;
      }
    }
  }

  /** An `or` without children accepts nothing, one more child is one more chance. */
  lemma {:induction false} OrCons(f: Filter, fs: seq<Filter>, p: Process, links: set<Edge>)
    ensures !Eval(Or([]), p, links)
    ensures Eval(Or([f] + fs), p, links) <==> Eval(f, p, links) || Eval(Or(fs), p, links)
  {
    assert ([f] + fs)[0] == f;
    if g :| g in fs && Eval(g, p, links) {
      assert g in [f] + fs;
    }
    if g :| g in [f] + fs && Eval(g, p, links) {
      assert g == f || g in fs;
    }
  }

  /** What fails to pass all children passes the negation of one. */
  lemma {:induction false} NotAll(fs: seq<Filter>, p: Process, links: set<Edge>)
    ensures Eval(Not(And(fs)), p, links) <==> Eval(Or(Negated(fs)), p, links)
  {
    if i :| 0 <= i < |fs| && !Eval(fs[i], p, links) {
      NotRefuses(fs[i], p, links);
      assert Negated(fs)[i] in Negated(fs) && fs[i] in fs;
    } else {
      forall i | 0 <= i < |fs| ensures !Eval(Negated(fs)[i], p, links) {
        NotRefuses(fs[i], p, links);
      }
    }
  }

  /** What passes no child passes the negations of all. */
  lemma {:induction false} NotAny(fs: seq<Filter>, p: Process, links: set<Edge>)
    ensures Eval(Not(Or(fs)), p, links) <==> Eval(And(Negated(fs)), p, links)
  {
    if i :| 0 <= i < |fs| && Eval(fs[i], p, links) {
      NotRefuses(fs[i], p, links);
      assert Negated(fs)[i] in Negated(fs) && fs[i] in fs;
    } else {
      forall i | 0 <= i < |fs| ensures Eval(Negated(fs)[i], p, links) {
        NotRefuses(fs[i], p, links);
      }
    }
  }
}
