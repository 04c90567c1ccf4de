/** Nesting depth of parentheses, and the scan for the one that closes an opening one. */
module Parentheses {
  import opened Wrappers

  datatype ScanError = Unbalanced | TooManyClosing

  function Weight(c: char): int {
    if c == '(' then 1 else if c == ')' then -1 else 0
  }

  function Depth(s: string): int {
    if s == [] then 0 else Depth(s[..|s| - 1]) + Weight(s[|s| - 1])
  }

  /** How many parentheses are open before position `k`. */
  function DepthAt(s: string, k: nat): int
    requires k <= |s|
  {
    Depth(s[..k])
  }

  /** No prefix closes more than it opens. */
  ghost predicate NeverNegative(s: string) {
    forall k: nat | k <= |s| :: DepthAt(s, k) >= 0
  }

  ghost predicate Balanced(s: string) {
    Depth(s) == 0 && NeverNegative(s)
  }

  predicate Neutral(s: string) {
    forall c <- s :: Weight(c) == 0
  }

  /** The state of the scan at position `i`, with `counter` parentheses open. */
  function MatchFrom(s: string, i: nat, counter: int): Result<nat, ScanError>
    decreases |s| - i
  {
    if i >= |s| then Err(Unbalanced)
    else
      var counter' := counter + Weight(s[i]);
      if counter' < 0 then Err(TooManyClosing)
      else if counter' == 0 then Ok(i)
      else MatchFrom(s, i + 1, counter')
  }

  method FindMatchPar(input: string, idx: nat) returns (r: Result<nat, ScanError>)
    ensures r == MatchFrom(input, idx, 0)
  {
    var counter := 0;
    var i := idx;
    while true
      invariant MatchFrom(input, i, counter) == MatchFrom(input, idx, 0)
      decreases |input| - i
    {
      if i >= |input| {
        return Err(Unbalanced);
      }
      match input[i] {
        case '(' => counter := counter + 1;
        case ')' => counter := counter - 1;
        case _ =>
      }
      if counter < 0 {
        return Err(TooManyClosing);
      }
      if counter == 0 {
        return Ok(i);
      }
      i := i + 1;
    }
  }

  lemma {:induction false} DepthConcat(a: string, b: string)
    ensures Depth(a + b) == Depth(a) + Depth(b)
  {
    if b == [] {
      assert a + b == a;
    } else {
      DepthConcat(a, b[..|b| - 1]);
      assert (a + b)[..|a + b| - 1] == a + b[..|b| - 1];
    }
  }

  lemma {:induction false} NeutralDepth(s: string)
    requires Neutral(s)
    ensures Depth(s) == 0
  {
    if s != [] {
      NeutralDepth(s[..|s| - 1]);
    }
  }

  /** A prefix of a concatenation lies in its first part or covers it. */
  lemma {:induction false} PrefixDepth(a: string, b: string, k: nat)
    requires k <= |a| + |b|
    ensures DepthAt(a + b, k) == if k <= |a| then DepthAt(a, k) else Depth(a) + DepthAt(b, k - |a|)
  {
    if k <= |a| {
      assert (a + b)[..k] == a[..k];
    } else {
      assert (a + b)[..k] == a + b[..k - |a|];
      DepthConcat(a, b[..k - |a|]);
    }
  }

  lemma {:induction false} NeverNegativePrefix(a: string, b: string)
    requires NeverNegative(a + b)
    ensures NeverNegative(a)
  {
    forall k: nat | k <= |a| ensures DepthAt(a, k) >= 0 {
      PrefixDepth(a, b, k);
    }
  }

  lemma {:induction false} NeverNegativeConcat(a: string, b: string)
    requires NeverNegative(a)
    requires forall k: nat | k <= |b| :: Depth(a) + DepthAt(b, k) >= 0
    ensures NeverNegative(a + b)
  {
    forall k: nat | k <= |a + b| ensures DepthAt(a + b, k) >= 0 {
      PrefixDepth(a, b, k);
    }
  }

  lemma {:induction false} DepthAtEnd(s: string)
    ensures DepthAt(s, |s|) == Depth(s)
  {
    assert s[..|s|] == s;
  }

  /** Removing text without parentheses keeps every prefix non-negative. */
  lemma {:induction false} DropNeutral(a: string, b: string, c: string)
    requires Neutral(b) && NeverNegative(a + b + c)
    ensures NeverNegative(a + c) && Depth(a + c) == Depth(a + b + c)
  {
    NeutralDepth(b);
    DepthConcat(a, b);
    DepthConcat(a + b, c);
    DepthConcat(a, c);
    forall k: nat | k <= |a + c| ensures DepthAt(a + c, k) >= 0 {
      PrefixDepth(a, c, k);
      if k <= |a| {
        PrefixDepth(a + b, c, k);
        PrefixDepth(a, b, k);
      } else {
        PrefixDepth(a + b, c, k + |b|);
      }
    }
  }

  lemma {:induction false} BalancedConcat(a: string, b: string)
    requires Balanced(a) && Balanced(b)
    ensures Balanced(a + b)
  {
    DepthConcat(a, b);
    NeverNegativeConcat(a, b);
  }

  lemma {:induction false} NeutralBalanced(s: string)
    requires Neutral(s)
    ensures Balanced(s)
  {
    NeutralDepth(s);
    forall k: nat | k <= |s| ensures DepthAt(s, k) >= 0 {
      NeutralDepth(s[..k]);
    }
  }

  lemma {:induction false} SingleDepth(c: char)
    ensures Depth([c]) == Weight(c)
    ensures DepthAt([c], 0) == 0 && DepthAt([c], 1) == Weight(c)
  {
    assert [c][..0] == [] && [c][..1] == [c];
  }

  /** Wrapping balanced text in parentheses keeps it balanced. */
  lemma {:induction false} BalancedWrap(inner: string)
    requires Balanced(inner)
    ensures Balanced("(" + inner + ")")
  {
    SingleDepth('(');
    SingleDepth(')');
    DepthConcat("(", inner);
    DepthConcat("(" + inner, ")");
    NeverNegativeConcat("(", inner);
    NeverNegativeConcat("(" + inner, ")");
  }

  /** What the scan finds from any state it reaches: the first position where the depth is back to zero. */
  lemma {:induction false} MatchIsFirstZero(s: string, opening: nat, i: nat)
    requires opening < i <= |s| && Depth(s[opening..i]) > 0
    ensures var r := MatchFrom(s, i, Depth(s[opening..i]));
            if r.Ok? then
              && i <= r.value < |s| && Depth(s[opening..r.value + 1]) == 0
              && forall j | i <= j <= r.value :: Depth(s[opening..j]) > 0
            else
              forall j | i <= j <= |s| :: Depth(s[opening..j]) > 0
    decreases |s| - i
  {
    if i < |s| {
      assert s[opening..i + 1][..i - opening] == s[opening..i];
      if Depth(s[opening..i + 1]) > 0 {
        MatchIsFirstZero(s, opening, i + 1);
      }
    }
  }

  /** `closing` is the first position after `opening` where the depth is back to zero. */
  ghost predicate ClosesAt(s: string, opening: nat, closing: nat) {
    && opening < closing < |s|
    && Depth(s[opening..closing + 1]) == 0
    && forall j | opening < j <= closing :: Depth(s[opening..j]) > 0
  }

  lemma {:induction false} MatchIffCloses(s: string, opening: nat, closing: nat)
    requires opening < |s| && s[opening] == '('
    ensures MatchFrom(s, opening, 0) == Ok(closing) <==> ClosesAt(s, opening, closing)
  {
    assert s[opening..opening + 1] == "(";
    SingleDepth('(');
    MatchIsFirstZero(s, opening, opening + 1);
    if ClosesAt(s, opening, closing) {
      assert Depth(s[opening..closing]) > 0;
    }
  }

  /** Depths measured from an opening parenthesis and from just after it. */
  lemma {:induction false} InnerDepth(s: string, opening: nat, closing: nat, k: nat)
    requires opening < closing < |s| && s[opening] == '(' && k <= closing - opening - 1
    ensures var j := opening + 1 + k;
            && Depth(s[opening..j]) == 1 + DepthAt(s[opening + 1..closing], k)
            && Depth(s[opening..j + 1]) == Depth(s[opening..j]) + Weight(s[j])
  {
    var j := opening + 1 + k;
    SingleDepth('(');
    assert s[opening..j] == "(" + s[opening + 1..closing][..k];
    DepthConcat("(", s[opening + 1..closing][..k]);
    assert s[opening..j + 1][..j - opening] == s[opening..j];
  }

  /**
   The scan started on an opening parenthesis stops at `closing` exactly when the text between the two
   is balanced and `closing` holds a closing parenthesis.
   */
  lemma {:induction false} MatchIffBalanced(s: string, opening: nat, closing: nat)
    requires opening < |s| && s[opening] == '('
    ensures MatchFrom(s, opening, 0) == Ok(closing)
       <==> opening < closing < |s| && s[closing] == ')' && Balanced(s[opening + 1..closing])
  {
    MatchIffCloses(s, opening, closing);
    if opening < closing < |s| {
      ClosesIffBalanced(s, opening, closing);
    }
  }

  lemma {:induction false} ClosesIffBalanced(s: string, opening: nat, closing: nat)
    requires opening < closing < |s| && s[opening] == '('
    ensures ClosesAt(s, opening, closing) <==> s[closing] == ')' && Balanced(s[opening + 1..closing])
  {
    var inner := s[opening + 1..closing];
    DepthAtEnd(inner);
    InnerDepth(s, opening, closing, |inner|);
    if ClosesAt(s, opening, closing) {
      forall k: nat | k <= |inner| ensures DepthAt(inner, k) >= 0 {
        InnerDepth(s, opening, closing, k);
      }
    } else if s[closing] == ')' && Balanced(inner) {
      forall j | opening < j <= closing ensures Depth(s[opening..j]) > 0 {
        InnerDepth(s, opening, closing, j - opening - 1);
      }
      assert false;
    }
  }
}
