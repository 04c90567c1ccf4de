/** Counting page flags, the tails of a compound page inheriting the flags of its head. */
module CompoundPages {
  import opened Wrappers
  import opened IoMem

  /** The flags of a page, as the set of their bit positions. */
  type Flags = set<nat>

  const FLAG_COUNT: nat := 27
  const COMPOUND_HEAD: nat := 15
  const COMPOUND_TAIL: nat := 16

  // ----- the pointwise meaning

  predicate IsHead(f: Flags) {
    COMPOUND_HEAD in f
  }

  predicate IsTail(f: Flags) {
    COMPOUND_TAIL in f
  }

  /** Page `h` is a head, and everything after it up to page `i` is a tail. */
  ghost predicate Leads(data: seq<Flags>, h: nat, i: nat)
    requires i < |data|
  {
    h <= i && IsHead(data[h]) && forall k | h < k <= i :: IsTail(data[k])
  }

  /** Page `h` governs page `i`: it is the first page that leads to it. */
  ghost predicate Governs(data: seq<Flags>, h: nat, i: nat)
    requires i < |data|
  {
    Leads(data, h, i) && forall g: nat | g < h :: !Leads(data, g, i)
  }

  ghost predicate InRun(data: seq<Flags>, i: nat)
    requires i < |data|
  {
    exists h: nat :: Governs(data, h, i)
  }

  /** The flags page `i` is counted with: its own, and those of its head except COMPOUND_HEAD. */
  ghost function Effective(data: seq<Flags>, i: nat): Flags
    requires i < |data|
  {
    if h: nat :| h < i && Governs(data, h, i) then data[i] + (data[h] - {COMPOUND_HEAD}) else data[i]
  }

  /** Every tail belongs to a compound run. */
  ghost predicate Legal(data: seq<Flags>) {
    forall i: nat | i < |data| && IsTail(data[i]) :: InRun(data, i)
  }

  /** The pages with the flags they are counted with. */
  ghost function Effectives(data: seq<Flags>): (r: seq<Flags>)
    ensures |r| == |data| && forall i | 0 <= i < |data| :: r[i] == Effective(data, i)
  {
    seq(|data|, i requires 0 <= i < |data| => Effective(data, i))
  }

  /** Those of the first `n` pages that have flag `k`. */
  function PagesWith(data: seq<Flags>, k: nat, n: nat): set<nat>
    requires n <= |data|
  {
    set i: nat | i < n && k in data[i]
  }

  ghost function CountRaw(data: seq<Flags>, k: nat, n: nat): nat
    requires n <= |data|
  {
    |PagesWith(data, k, n)|
  }

  /** How many of the first `n` pages are counted with flag `k`. */
  ghost function CountEffective(data: seq<Flags>, k: nat, n: nat): nat
    requires n <= |data|
  {
    CountRaw(Effectives(data), k, n)
  }

  lemma {:induction false} CountNone(data: seq<Flags>, k: nat)
    ensures CountRaw(data, k, 0) == 0
  {
    assert PagesWith(data, k, 0) == {};
  }

  lemma {:induction false} RawNext(data: seq<Flags>, k: nat, n: nat)
    requires n < |data|
    ensures CountRaw(data, k, n + 1) == CountRaw(data, k, n) + if k in data[n] then 1 else 0
  {
    var before, after := PagesWith(data, k, n), PagesWith(data, k, n + 1);
    if k in data[n] {
      assert after == before + {n};
    } else {
      assert after == before;
    }
  }

  lemma {:induction false} EffectiveNext(data: seq<Flags>, k: nat, n: nat)
    requires n < |data|
    ensures CountEffective(data, k, n + 1) == CountEffective(data, k, n) + if k in Effective(data, n) then 1 else 0
  {
    RawNext(Effectives(data), k, n);
  }

  lemma {:induction false} EffectiveNone(data: seq<Flags>, k: nat)
    ensures CountEffective(data, k, 0) == 0
  {
    CountNone(Effectives(data), k);
  }

  lemma {:induction false} CountIsSize(data: seq<Flags>, k: nat)
    ensures CountEffective(data, k, |data|) == |set i: nat | i < |data| && k in Effective(data, i)|
  {
    assert PagesWith(Effectives(data), k, |data|) == set i: nat | i < |data| && k in Effective(data, i);
  }

  // ----- runs, one page at a time

  lemma {:induction false} GovernorIsUnique(data: seq<Flags>, g: nat, h: nat, i: nat)
    requires i < |data| && Governs(data, g, i) && Governs(data, h, i)
    ensures g == h
  {
  }

  lemma {:induction false} EffectiveInRun(data: seq<Flags>, h: nat, i: nat)
    requires i < |data| && Governs(data, h, i)
    ensures Effective(data, i) == if h < i then data[i] + (data[h] - {COMPOUND_HEAD}) else data[i]
  {
    if g: nat :| g < i && Governs(data, g, i) {
      GovernorIsUnique(data, g, h, i);
    }
  }

  /** Page `i` does not continue a run: nothing before it leads to it. */
  ghost predicate StartsAfresh(data: seq<Flags>, i: nat)
    requires i < |data|
  {
    forall g: nat | g < i :: !Leads(data, g, i)
  }

  lemma {:induction false} FreshPage(data: seq<Flags>, i: nat)
    requires i < |data| && StartsAfresh(data, i)
    ensures Effective(data, i) == data[i]
    ensures InRun(data, i) <==> IsHead(data[i])
    ensures IsHead(data[i]) ==> Governs(data, i, i)
  {
    if IsHead(data[i]) {
      assert Leads(data, i, i);
      EffectiveInRun(data, i, i);
    }
  }

  /** A page that is not a tail starts afresh; so does a page that follows one outside any run. */
  lemma {:induction false} FreshAfter(data: seq<Flags>, i: nat)
    requires i < |data| && (!IsTail(data[i]) || i == 0 || !InRun(data, i - 1))
    ensures StartsAfresh(data, i)
  {
    forall g: nat | g < i ensures !Leads(data, g, i) {
      if Leads(data, g, i) {
        assert IsTail(data[i]);
        LeadsBefore(data, g, i);
        var h := FirstLeader(data, g, i - 1);
      }
    }
  }

  lemma {:induction false} LeadsBefore(data: seq<Flags>, g: nat, i: nat)
    requires i < |data| && g < i && Leads(data, g, i)
    ensures Leads(data, g, i - 1)
  {
  }

  lemma {:induction false} FirstLeader(data: seq<Flags>, g: nat, i: nat) returns (h: nat)
    requires i < |data| && Leads(data, g, i)
    ensures Governs(data, h, i)
    decreases g
  {
    if f: nat :| f < g && Leads(data, f, i) {
      h := FirstLeader(data, f, i);
    } else {
      h := g;
    }
  }

  /** A page without bit 16 is counted with its own flags. */
  lemma {:induction false} PageItself(data: seq<Flags>, i: nat)
    requires i < |data| && 16 !in data[i]
    ensures Effective(data, i) == data[i]
  {
    FreshAfter(data, i);
    FreshPage(data, i);
  }

  /** Pages with bit 16 after a page with bit 15 and without bit 16 are counted with its flags, bit 15 excepted. */
  lemma {:induction false} TailInherits(data: seq<Flags>, h: nat, i: nat)
    requires h < i < |data| && 15 in data[h] && 16 !in data[h] && forall k | h < k <= i :: 16 in data[k]
    ensures Effective(data, i) == data[i] + (data[h] - {15})
    decreases i
  {
    HeadGoverns(data, h, i - 1);
    RunContinues(data, h, i - 1);
  }

  lemma {:induction false} HeadGoverns(data: seq<Flags>, h: nat, i: nat)
    requires h <= i < |data| && 15 in data[h] && 16 !in data[h] && forall k | h < k <= i :: 16 in data[k]
    ensures Governs(data, h, i)
    decreases i
  {
    if h == i {
      FreshAfter(data, h);
      FreshPage(data, h);
    } else {
      HeadGoverns(data, h, i - 1);
      RunContinues(data, h, i - 1);
    }
  }

  /** A tail right after a page of a run belongs to the same run. */
  lemma {:induction false} RunContinues(data: seq<Flags>, h: nat, i: nat)
    requires i + 1 < |data| && Governs(data, h, i) && IsTail(data[i + 1])
    ensures Governs(data, h, i + 1)
    ensures Effective(data, i + 1) == data[i + 1] + (data[h] - {COMPOUND_HEAD})
  {
    var next := i + 1;
    forall g: nat | g < h ensures !Leads(data, g, next) {
      if Leads(data, g, next) {
        LeadsBefore(data, g, next);
      }
    }
    EffectiveInRun(data, h, next);
  }

  /** A tail is outside any run exactly when it is no head and is first or follows a page outside any run. */
  lemma {:induction false} StrayTailIff(data: seq<Flags>, i: nat)
    requires i < |data| && IsTail(data[i])
    ensures !InRun(data, i) <==> !IsHead(data[i]) && (i == 0 || !InRun(data, i - 1))
  {
    if i > 0 && InRun(data, i - 1) {
      var h: nat :| Governs(data, h, i - 1);
      RunContinues(data, h, i - 1);
    } else {
      FreshAfter(data, i);
      FreshPage(data, i);
    }
  }

  /** Bit by bit: every page with bit 16 has bit 15, or comes after one that has, only such pages being between them. */
  lemma {:induction false} LegalIff(data: seq<Flags>)
    ensures Legal(data) <==> forall i: nat | i < |data| && 16 in data[i] ::
              exists h: nat :: h <= i && 15 in data[h] && forall k | h < k <= i :: 16 in data[k]
  {
    forall i: nat | i < |data|
      ensures InRun(data, i) <==> exists h: nat :: h <= i && 15 in data[h] && forall k | h < k <= i :: 16 in data[k]
    {
      if h: nat :| h <= i && 15 in data[h] && forall k | h < k <= i :: 16 in data[k] {
        assert Leads(data, h, i);
        var g := FirstLeader(data, h, i);
      }
    }
  }

  /** A tail alone is outside any run: the assertion fails on it. */
  lemma {:induction false} LoneTail()
    ensures !Legal([{16}])
  {
    var data: seq<Flags> := [{16}];
    assert IsTail(data[0]) && !IsHead(data[0]);
    StrayTailIff(data, 0);
  }

  // ----- the loops

  /** The innermost loop: one more page counted with these flags. */
  method AddFlags(counters: array<u64>, flags: Flags)
    requires counters.Length == 28
    requires forall k | 0 <= k < 27 :: counters[k] < 0xFFFF_FFFF_FFFF_FFFF
    modifies counters
    ensures forall k | 0 <= k < 27 && k in flags :: counters[k] as int == old(counters[k]) as int + 1
    ensures forall k | 0 <= k < 27 && k !in flags :: counters[k] == old(counters[k])
    ensures counters[27] == old(counters[27])
  {
    for index := 0 to FLAG_COUNT
      invariant forall k | 0 <= k < index ::
        counters[k] as int == old(counters[k]) as int + if k in flags then 1 else 0
      invariant forall k | index <= k <= FLAG_COUNT :: counters[k] == old(counters[k])
    {
      if index in flags {
        counters[index] := counters[index] + 1;
      }
    }
  }

  /** The counters after the first `n` pages; the last counter is never used. */
  ghost predicate Counted(data: seq<Flags>, counters: seq<u64>, n: nat) {
    && n <= |data| && |counters| == FLAG_COUNT + 1 && counters[FLAG_COUNT] == 0
    && forall k: nat | k < FLAG_COUNT :: counters[k] as int == CountEffective(data, k, n)
  }

  lemma {:induction false} CountBound(data: seq<Flags>, k: nat, n: nat)
    requires n <= |data|
    ensures CountRaw(data, k, n) <= CountEffective(data, k, n) <= n
    decreases n
  {
    if n == 0 {
      CountNone(data, k);
      EffectiveNone(data, k);
    } else {
      CountBound(data, k, n - 1);
      EffectiveNext(data, k, n - 1);
      RawNext(data, k, n - 1);
    }
  }

  /** Counts page `n` with its effective flags. */
  method CountPage(ghost data: seq<Flags>, counters: array<u64>, ghost n: nat, flags: Flags)
    requires n < |data| < 0x1_0000_0000_0000_0000 && flags == Effective(data, n)
    requires Counted(data, counters[..], n)
    modifies counters
    ensures Counted(data, counters[..], n + 1)
  {
    forall k: nat | k < FLAG_COUNT ensures counters[k] < 0xFFFF_FFFF_FFFF_FFFF {
      assert counters[k] == counters[..][k];
      CountBound(data, k, n);
    }
    ghost var before := counters[..];
    AddFlags(counters, flags);
    forall k: nat | k < FLAG_COUNT ensures counters[..][k] as int == CountEffective(data, k, n + 1) {
      assert before[k] as int == CountEffective(data, k, n);
      EffectiveNext(data, k, n);
    }
  }

  /** `None` stands for the failed assertion on a tail outside any run. */
  method ComputeCompoundPages(data: seq<Flags>) returns (r: Option<seq<u64>>)
    requires |data| < 0x1_0000_0000_0000_0000
    ensures r.Some? <==> Legal(data)
    ensures r.Some? ==> |r.value| == 28 && r.value[27] == 0
    ensures r.Some? ==> forall k: nat | k < 27 ::
              r.value[k] as int == |set i: nat | i < |data| && k in Effective(data, i)|
  {
    forall k: nat ensures CountEffective(data, k, 0) == 0 {
      EffectiveNone(data, k);
    }
    var counters := new u64[FLAG_COUNT + 1](_ => 0);
    var i := 0;
    while i < |data|
      invariant 0 <= i <= |data|
      invariant Counted(data, counters[..], i)
      invariant i < |data| ==> StartsAfresh(data, i)
      invariant forall j: nat | j < i && IsTail(data[j]) :: InRun(data, j)
    {
      var flags := data[i];
      FreshPage(data, i);
      if IsHead(flags) {
        var h := i;
        var headFlags := flags;
        CountPage(data, counters, i, headFlags);
        i := i + 1;
        while i < |data| && IsTail(data[i])
          invariant h < i <= |data|
          invariant Governs(data, h, i - 1)
          invariant Counted(data, counters[..], i)
          invariant forall j: nat | j < i && IsTail(data[j]) :: InRun(data, j)
        {
          RunContinues(data, h, i - 1);
          var tailFlags := data[i] + (headFlags - {COMPOUND_HEAD});
          CountPage(data, counters, i, tailFlags);
          i := i + 1;
        }
        if i < |data| {
          FreshAfter(data, i);
        }
      } else {
        if IsTail(flags) {
          return None;
        }
        CountPage(data, counters, i, flags);
        i := i + 1;
        if i < |data| {
          FreshAfter(data, i);
        }
      }
    }
    forall k: nat | k < 27
      ensures counters[k] as int == |set j: nat | j < |data| && k in Effective(data, j)|
    {
      CountIsSize(data, k);
      assert counters[k] == counters[..][k];
    }
    return Some(counters[..]);
  }

  // ----- what the counters conserve

  /** Inheriting from the head never changes whether a page counts as a head or as a tail. */
  lemma {:induction false} HeadAndTailBits(data: seq<Flags>, i: nat)
    requires i < |data|
    ensures IsHead(Effective(data, i)) <==> IsHead(data[i])
    ensures IsTail(Effective(data, i)) <==> IsTail(data[i])
  {
    if h: nat :| h < i && Governs(data, h, i) {
      EffectiveInRun(data, h, i);
      assert IsTail(data[i]);
    }
  }

  /** The head and tail counters are the raw ones; every other one lies between its raw count and the page count. */
  lemma {:induction false} CountersConserve(data: seq<Flags>, n: nat)
    requires n <= |data|
    ensures CountEffective(data, COMPOUND_HEAD, n) == CountRaw(data, COMPOUND_HEAD, n)
    ensures CountEffective(data, COMPOUND_TAIL, n) == CountRaw(data, COMPOUND_TAIL, n)
    ensures forall k :: CountRaw(data, k, n) <= CountEffective(data, k, n) <= n
    decreases n
  {
    if n > 0 {
      CountersConserve(data, n - 1);
      HeadAndTailBits(data, n - 1);
      EffectiveNext(data, COMPOUND_HEAD, n - 1);
      EffectiveNext(data, COMPOUND_TAIL, n - 1);
      RawNext(data, COMPOUND_HEAD, n - 1);
      RawNext(data, COMPOUND_TAIL, n - 1);
    } else {
      CountNone(data, COMPOUND_HEAD);
      CountNone(data, COMPOUND_TAIL);
      EffectiveNone(data, COMPOUND_HEAD);
      EffectiveNone(data, COMPOUND_TAIL);
    }
    forall k ensures CountRaw(data, k, n) <= CountEffective(data, k, n) <= n {
      CountBound(data, k, n);
    }
  }

  // ----- cutting the data in two

  lemma {:induction false} LeadsInFront(a: seq<Flags>, b: seq<Flags>, h: nat, i: nat)
    requires i < |a|
    ensures Leads(a + b, h, i) <==> Leads(a, h, i)
  {
    if Leads(a, h, i) {
      assert forall k | h < k <= i :: (a + b)[k] == a[k];
    }
    if Leads(a + b, h, i) {
      assert forall k | h < k <= i :: a[k] == (a + b)[k];
    }
  }

  lemma {:induction false} LeadsInBack(a: seq<Flags>, b: seq<Flags>, h: nat, j: nat)
    requires j < |b| && !IsTail(b[0])
    ensures Leads(a + b, h, |a| + j) <==> h >= |a| && Leads(b, h - |a|, j)
  {
    var s := a + b;
    if Leads(s, h, |a| + j) {
      assert s[|a|] == b[0];
      assert forall k | h - |a| < k <= j :: b[k] == s[|a| + k];
    }
    if h >= |a| && Leads(b, h - |a|, j) {
      assert forall k | h < k <= |a| + j :: s[k] == b[k - |a|];
    }
  }

  lemma {:induction false} FrontGoverns(a: seq<Flags>, b: seq<Flags>, h: nat, i: nat)
    requires i < |a|
    ensures Governs(a + b, h, i) <==> Governs(a, h, i)
  {
    forall g: nat ensures Leads(a + b, g, i) <==> Leads(a, g, i) {
      LeadsInFront(a, b, g, i);
    }
  }

  lemma {:induction false} FrontPage(a: seq<Flags>, b: seq<Flags>, i: nat)
    requires i < |a|
    ensures InRun(a + b, i) <==> InRun(a, i)
    ensures Effective(a + b, i) == Effective(a, i)
  {
    if h: nat :| Governs(a, h, i) {
      FrontGoverns(a, b, h, i);
      EffectiveInRun(a, h, i);
      EffectiveInRun(a + b, h, i);
    } else if h: nat :| Governs(a + b, h, i) {
      FrontGoverns(a, b, h, i);
      assert false;
    }
  }

  lemma {:induction false} BackGoverns(a: seq<Flags>, b: seq<Flags>, h: nat, j: nat)
    requires j < |b| && !IsTail(b[0])
    ensures Governs(a + b, h, |a| + j) <==> h >= |a| && Governs(b, h - |a|, j)
  {
    var s, i := a + b, |a| + j;
    LeadsInBack(a, b, h, j);
    if h >= |a| && Governs(b, h - |a|, j) {
      forall g: nat | g < h ensures !Leads(s, g, i) {
        LeadsInBack(a, b, g, j);
      }
    }
    if Governs(s, h, i) {
      forall g: nat | g < h - |a| ensures !Leads(b, g, j) {
        LeadsInBack(a, b, g + |a|, j);
      }
    }
  }

  lemma {:induction false} BackPage(a: seq<Flags>, b: seq<Flags>, j: nat)
    requires j < |b| && !IsTail(b[0])
    ensures InRun(a + b, |a| + j) <==> InRun(b, j)
    ensures Effective(a + b, |a| + j) == Effective(b, j)
  {
    var s, i := a + b, |a| + j;
    if h: nat :| Governs(b, h, j) {
      BackGoverns(a, b, h + |a|, j);
      EffectiveInRun(b, h, j);
      EffectiveInRun(s, h + |a|, i);
    } else if h: nat :| Governs(s, h, i) {
      BackGoverns(a, b, h, j);
      assert false;
    }
  }

  /** Counting two stretches of pages and adding up is counting the whole, if the second does not start with a tail. */
  lemma {:induction false} CountsAdd(a: seq<Flags>, b: seq<Flags>, k: nat, n: nat)
    requires n <= |b| && (b != [] ==> !IsTail(b[0]))
    ensures CountEffective(a + b, k, |a| + n) == CountEffective(a, k, |a|) + CountEffective(b, k, n)
    decreases n
  {
    if n == 0 {
      FrontCounts(a, b, k, |a|);
      EffectiveNone(b, k);
    } else {
      CountsAdd(a, b, k, n - 1);
      EffectiveNext(a + b, k, |a| + n - 1);
      EffectiveNext(b, k, n - 1);
      BackPage(a, b, n - 1);
    }
  }

  lemma {:induction false} FrontCounts(a: seq<Flags>, b: seq<Flags>, k: nat, n: nat)
    requires n <= |a|
    ensures CountEffective(a + b, k, n) == CountEffective(a, k, n)
    decreases n
  {
    if n > 0 {
      FrontCounts(a, b, k, n - 1);
      FrontPage(a, b, n - 1);
      EffectiveNext(a + b, k, n - 1);
      EffectiveNext(a, k, n - 1);
    } else {
      EffectiveNone(a + b, k);
      EffectiveNone(a, k);
    }
  }

  /** And the whole passes the assertion exactly when both stretches do. */
  lemma {:induction false} LegalAdds(a: seq<Flags>, b: seq<Flags>)
    requires b != [] ==> !IsTail(b[0])
    ensures Legal(a + b) <==> Legal(a) && Legal(b)
  {
    forall i: nat | i < |a| ensures InRun(a + b, i) <==> InRun(a, i) {
      FrontPage(a, b, i);
    }
    forall j: nat | j < |b| ensures InRun(a + b, |a| + j) <==> InRun(b, j) {
      BackPage(a, b, j);
    }
    if Legal(a + b) {
      forall i: nat | i < |a| && IsTail(a[i]) ensures InRun(a, i) {
        assert IsTail((a + b)[i]);
      }
      forall j: nat | j < |b| && IsTail(b[j]) ensures InRun(b, j) {
        assert IsTail((a + b)[|a| + j]);
      }
    }
    if Legal(a) && Legal(b) {
      forall i: nat | i < |a + b| && IsTail((a + b)[i]) ensures InRun(a + b, i) {
        if i >= |a| {
          assert InRun(a + b, |a| + (i - |a|));
        }
      }
    }
  }
}
