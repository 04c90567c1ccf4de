/** Page frame numbers and their indices over non-contiguous memory maps. */
module IoMem {
  import opened Wrappers
  import opened Ranges

  newtype u64 = x: int | 0 <= x < 0x1_0000_0000_0000_0000

  /** One line of /proc/iomem; the end address is inclusive. */
  datatype PhysicalMemoryMap = PhysicalMemoryMap(name: string, start: u64, end: u64)

  const SYSTEM_RAM := "System RAM"

  function RangeOf(m: PhysicalMemoryMap, pageSize: u64): Range
    requires pageSize > 0
  {
    Range(m.start as int / pageSize as int, m.end as int / pageSize as int)
  }

  function RangesOf(iomem: seq<PhysicalMemoryMap>, pageSize: u64): (rs: seq<Range>)
    requires pageSize > 0
    ensures |rs| == |iomem|
  {
    if iomem == [] then []
    else RangesOf(iomem[..|iomem| - 1], pageSize) + [RangeOf(iomem[|iomem| - 1], pageSize)]
  }

  lemma {:induction false} RangeAt(iomem: seq<PhysicalMemoryMap>, pageSize: u64, i: nat)
    requires pageSize > 0 && i < |iomem|
    ensures RangesOf(iomem, pageSize)[i] == RangeOf(iomem[i], pageSize)
  {
    if i < |iomem| - 1 {
      RangeAt(iomem[..|iomem| - 1], pageSize, i);
    }
  }

  /** RAM maps in increasing order, no two of them sharing a frame. */
  ghost predicate Layout(iomem: seq<PhysicalMemoryMap>, pageSize: u64) {
    && pageSize > 0
    && (forall m <- iomem :: m.name == SYSTEM_RAM && m.start <= m.end)
    && Increasing(RangesOf(iomem, pageSize))
  }

  /** What `pfn_to_index` means: the number of covered frames below a covered frame other than frame 0. */
  ghost function IndexOf(iomem: seq<PhysicalMemoryMap>, pageSize: u64, pfn: nat): Option<nat>
    requires pageSize > 0
  {
    var frames := Covered(RangesOf(iomem, pageSize));
    if pfn != 0 && pfn in frames then Some(Rank(frames, pfn)) else None
  }

  /** What `index_to_pfn` means: the covered frame that has this many covered frames below it. */
  ghost function PfnAt(iomem: seq<PhysicalMemoryMap>, pageSize: u64, index: nat): Option<nat>
    requires pageSize > 0
  {
    Nth(RangesOf(iomem, pageSize), index)
  }

  /** The number of covered frames. */
  ghost function FrameCount(iomem: seq<PhysicalMemoryMap>, pageSize: u64): nat
    requires pageSize > 0
  {
    |Covered(RangesOf(iomem, pageSize))|
  }

  /** The two conversions undo each other, on every frame but frame 0 and on every index below the count. */
  lemma {:induction false} MutualInverses(iomem: seq<PhysicalMemoryMap>, pageSize: u64)
    requires pageSize > 0
    ensures forall p: nat | IndexOf(iomem, pageSize, p).Some? ::
              PfnAt(iomem, pageSize, IndexOf(iomem, pageSize, p).value) == Some(p)
    ensures forall i: nat :: PfnAt(iomem, pageSize, i).Some? <==> i < FrameCount(iomem, pageSize)
    ensures forall i: nat | PfnAt(iomem, pageSize, i).Some? && PfnAt(iomem, pageSize, i).value != 0 ::
              IndexOf(iomem, pageSize, PfnAt(iomem, pageSize, i).value) == Some(i)
  {
    forall p: nat | IndexOf(iomem, pageSize, p).Some?
      ensures PfnAt(iomem, pageSize, IndexOf(iomem, pageSize, p).value) == Some(p)
    {
      NthIs(RangesOf(iomem, pageSize), p);
    }
  }

  /** Greater frames have greater indices, all of them below the number of covered frames. */
  lemma {:induction false} IndexMonotone(iomem: seq<PhysicalMemoryMap>, pageSize: u64, p: nat, q: nat)
    requires pageSize > 0 && p < q
    requires IndexOf(iomem, pageSize, p).Some? && IndexOf(iomem, pageSize, q).Some?
    ensures IndexOf(iomem, pageSize, p).value < IndexOf(iomem, pageSize, q).value < FrameCount(iomem, pageSize)
  {
    var frames := Covered(RangesOf(iomem, pageSize));
    RankMonotone(frames, p, q);
    RankMonotone(frames, q, q + 1);
  }

  // ----- the two loops

  lemma {:induction false} QuotientBounds(a: nat, d: nat)
    requires d > 0
    ensures d * (a / d) <= a < d * (a / d) + d && 0 <= a / d
  {
    assert a == d * (a / d) + a % d;
  }

  lemma {:induction false} TimesMonotone(d: nat, x: int, y: int)
    requires x <= y
    ensures d * x <= d * y
  {
  }

  lemma {:induction false} QuotientAtMost(a: nat, d: nat, k: nat)
    requires k >= 1 && d >= k
    ensures k * (a / d) <= a
  {
    QuotientBounds(a, d);
    TimesMonotone(a / d, k, d);
  }

  /** The two divisions at the head of the loops. */
  method MapRange(m: PhysicalMemoryMap, pageSize: u64) returns (pfnStart: u64, pfnEnd: u64)
    requires pageSize > 0
    ensures Range(pfnStart as int, pfnEnd as int) == RangeOf(m, pageSize)
  {
    QuotientAtMost(m.start as int, pageSize as int, 1);
    QuotientAtMost(m.end as int, pageSize as int, 1);
    pfnStart, pfnEnd := m.start / pageSize, m.end / pageSize;
  }

  // ----- when the sum of `pfn_to_index` fits in 64 bits

  /** The sum made for a frame of range `i`. */
  ghost predicate SumFits(rs: seq<Range>, i: nat, p: nat)
    requires i < |rs|
  {
    SizeBefore(rs, i) + p < 0x1_0000_0000_0000_0000
  }

  /** The sum made for every frame that has an index. */
  ghost predicate EverySumFits(rs: seq<Range>) {
    forall i: nat, p: nat | i < |rs| && p != 0 && InRange(rs[i], p) :: SumFits(rs, i, p)
  }

  /** The sum made for the last frame of the last map. */
  ghost predicate LastSumFits(rs: seq<Range>) {
    rs == [] || SumFits(rs, |rs| - 1, rs[|rs| - 1].last)
  }

  /** Every sum fits exactly when the last one does. */
  lemma {:induction false} SumsFitIff(rs: seq<Range>)
    requires Increasing(rs)
    ensures EverySumFits(rs) <==> LastSumFits(rs)
  {
    if LastSumFits(rs) {
      forall i: nat, p: nat | i < |rs| && p != 0 && InRange(rs[i], p) ensures SumFits(rs, i, p) {
        SumBound(rs, i, p);
      }
    } else {
      var i: nat := |rs| - 1;
      var p: nat := rs[i].last;
      SizeBound(rs, i);
      assert InRange(rs[i], p) && !SumFits(rs, i, p);
    }
  }

  /** Pages of two bytes or more leave half of the range free. */
  lemma {:induction false} RealPagesFit(iomem: seq<PhysicalMemoryMap>, pageSize: u64)
    requires Layout(iomem, pageSize) && pageSize >= 2
    ensures LastSumFits(RangesOf(iomem, pageSize))
  {
    var rs, last := RangesOf(iomem, pageSize), |iomem| - 1;
    if iomem != [] {
      RangeAt(iomem, pageSize, last);
      SizeBound(rs, last);
      QuotientAtMost(iomem[last].end as int, pageSize as int, 2);
    }
  }

  /** The frame of range `i` at offset `k` has index `k` plus the size of the ranges before it. */
  lemma {:induction false} OffsetInRange(iomem: seq<PhysicalMemoryMap>, pageSize: u64, i: nat, k: nat)
    requires Layout(iomem, pageSize) && i < |iomem|
    requires var r := RangesOf(iomem, pageSize)[i]; r.first + k <= r.last
    ensures var rs := RangesOf(iomem, pageSize);
            var p, index := rs[i].first + k, SizeBefore(rs, i) + k;
            && index >= 0 && PfnAt(iomem, pageSize, index) == Some(p)
            && (p != 0 ==> IndexOf(iomem, pageSize, p) == Some(index))
  {
    var rs := RangesOf(iomem, pageSize);
    RankInRange(rs, i, rs[i].first + k);
    NthIs(rs, rs[i].first + k);
  }

  /** The sum made for a frame of range `i` gives its rank. */
  lemma {:induction false} RankSum(rs: seq<Range>, i: nat, p: nat)
    requires Increasing(rs) && LastSumFits(rs) && i < |rs| && InRange(rs[i], p)
    ensures p in Covered(rs) && SumFits(rs, i, p)
    ensures Rank(Covered(rs), p) == SizeBefore(rs, i) + p - rs[i].first
  {
    SumBound(rs, i, p);
    RankInRange(rs, i, p);
  }

  /** No sum or difference leaves the 64-bit range. */
  method PfnToIndex(iomem: seq<PhysicalMemoryMap>, pageSize: u64, pfn: u64) returns (r: Option<u64>)
    requires Layout(iomem, pageSize) && LastSumFits(RangesOf(iomem, pageSize))
    ensures match r
            case None => IndexOf(iomem, pageSize, pfn as int) == None
            case Some(index) => IndexOf(iomem, pageSize, pfn as int) == Some(index as int)
  {
    if pfn == 0 {
      return None;
    }
    ghost var rs := RangesOf(iomem, pageSize);
    var previousMapsSize: u64 := 0;
    for i := 0 to |iomem|
      invariant previousMapsSize as int == SizeBefore(rs, i)
      invariant i > 0 ==> rs[i - 1].last < pfn as int
    {
      assert iomem[i].name == SYSTEM_RAM;
      var pfnStart, pfnEnd := MapRange(iomem[i], pageSize);
      RangeAt(iomem, pageSize, i);
      SizeBound(rs, i);
      if pfn < pfnStart {
        NotCovered(rs, i, pfn as int);
        return None;
      }
      if pfn <= pfnEnd {
        RankSum(rs, i, pfn as int);
        return Some(previousMapsSize + pfn - pfnStart);
      }
      previousMapsSize := previousMapsSize + (pfnEnd - pfnStart + 1);
    }
    NotCovered(rs, |iomem|, pfn as int);
    return None;
  }

  method IndexToPfn(iomem: seq<PhysicalMemoryMap>, pageSize: u64, index0: u64) returns (r: Option<u64>)
    requires Layout(iomem, pageSize)
    ensures match r
            case None => PfnAt(iomem, pageSize, index0 as int) == None
            case Some(pfn) => PfnAt(iomem, pageSize, index0 as int) == Some(pfn as int)
  {
    ghost var rs := RangesOf(iomem, pageSize);
    var index := index0;
    for i := 0 to |iomem|
      invariant index0 as int == index as int + SizeBefore(rs, i)
    {
      assert iomem[i].name == SYSTEM_RAM;
      var pfnStart, pfnEnd := MapRange(iomem[i], pageSize);
      RangeAt(iomem, pageSize, i);
      if index <= pfnEnd - pfnStart {
        OffsetInRange(iomem, pageSize, i, index as int);
        return Some(index + pfnStart);
      }
      index := index - (pfnEnd - pfnStart + 1);
    }
    WholeSize(rs);
    return None;
  }

  /** With pages of one byte the sum can leave the 64-bit range. */
  lemma {:induction false} OneBytePagesOverflow()
    ensures var iomem := [PhysicalMemoryMap(SYSTEM_RAM, 0, 0x8000_0000_0000_0000),
                          PhysicalMemoryMap(SYSTEM_RAM, 0x8000_0000_0000_0002, 0xFFFF_FFFF_FFFF_FFFF)];
            Layout(iomem, 1) && !LastSumFits(RangesOf(iomem, 1))
  {
    var iomem := [PhysicalMemoryMap(SYSTEM_RAM, 0, 0x8000_0000_0000_0000),
                  PhysicalMemoryMap(SYSTEM_RAM, 0x8000_0000_0000_0002, 0xFFFF_FFFF_FFFF_FFFF)];
    RangeAt(iomem, 1, 0);
    RangeAt(iomem, 1, 1);
    assert SizeBefore(RangesOf(iomem, 1), 0) == 0;
  }
}
