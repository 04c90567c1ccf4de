/** The other ways the code walks over memory maps, and when they agree with the index conversions. */
module RamWalk {
  import opened Wrappers
  import opened Sequences
  import opened Ranges
  import opened IoMem

  const FRAME_SIZE: u64 := 4096

  function IsRam(): PhysicalMemoryMap -> bool {
    (m: PhysicalMemoryMap) => m.name == SYSTEM_RAM
  }

  /** The test of the source: the end address is taken as exclusive here. */
  predicate HoldsAddress(m: PhysicalMemoryMap, address: nat) {
    m.start as int <= address < m.end as int
  }

  /** The first byte of the frame is in the map. */
  predicate HoldsPage(m: PhysicalMemoryMap, pageSize: u64, pfn: nat) {
    HoldsAddress(m, pfn * pageSize as int)
  }

  /** The product as it is computed, without a check, in 64 bits. */
  function Address(pageSize: u64, pfn: u64): u64 {
    ((pfn as int * pageSize as int) % 0x1_0000_0000_0000_0000) as u64
  }

  /** The index returned counts the RAM maps only. */
  method PfnIsInRam(iomem: seq<PhysicalMemoryMap>, pageSize: u64, pfn: u64) returns (r: Option<nat>)
    ensures var ram, address := Select(iomem, IsRam()), Address(pageSize, pfn) as int;
            match r
            case None => forall m <- ram :: !HoldsAddress(m, address)
            case Some(idx) =>
              && idx < |ram| && HoldsAddress(ram[idx], address)
              && forall m <- ram[..idx] :: !HoldsAddress(m, address)
  {
    var idx := 0;
    var address := Address(pageSize, pfn);
    ghost var ram := Select(iomem, IsRam());
    for i := 0 to |iomem|
      invariant idx == |Select(iomem[..i], IsRam())|
      invariant forall m <- Select(iomem[..i], IsRam()) :: !HoldsAddress(m, address as int)
    {
      SelectNext(iomem, i, IsRam());
      if iomem[i].name == SYSTEM_RAM {
        if address >= iomem[i].start && address < iomem[i].end {
          SelectPrefix(iomem, i, IsRam());
          return Some(idx);
        }
        idx := idx + 1;
      }
    }
    assert iomem[..|iomem|] == iomem;
    return None;
  }

  /** Only maps named "System RAM" are looked at. */
  lemma {:induction false} RamIff(iomem: seq<PhysicalMemoryMap>, m: PhysicalMemoryMap)
    ensures m in Select(iomem, IsRam()) <==> m in iomem && m.name == "System RAM"
  {
    SelectMember(iomem, IsRam(), m);
  }

  lemma {:induction false} SmallRemainder(x: nat, d: nat)
    requires x < d
    ensures x % d == x
  {
  }

  /** For a frame whose address fits in 64 bits the test is the one on the frame. */
  lemma {:induction false} AddressFits(m: PhysicalMemoryMap, pageSize: u64, pfn: u64)
    requires pfn as int * pageSize as int < 0x1_0000_0000_0000_0000
    ensures HoldsAddress(m, Address(pageSize, pfn) as int) <==> HoldsPage(m, pageSize, pfn as int)
  {
    SmallRemainder(pfn as int * pageSize as int, 0x1_0000_0000_0000_0000);
  }

  /** No map holds any other frame, and the test may still find one: here for frame 2^52 + 1 instead of frame 1. */
  lemma {:induction false} AddressWraps()
    ensures var m, pfn := PhysicalMemoryMap(SYSTEM_RAM, 0x1000, 0x9ffff), 0x10_0000_0000_0001;
            HoldsAddress(m, Address(0x1000, pfn) as int) && !HoldsPage(m, 0x1000, pfn as int)
  {
  }

  lemma {:induction false} SelectPrefix<T>(s: seq<T>, i: nat, keep: T -> bool)
    requires i < |s| && keep(s[i])
    ensures var front := Select(s[..i], keep);
            |front| < |Select(s, keep)| && Select(s, keep)[..|front|] == front && Select(s, keep)[|front|] == s[i]
    decreases |s|
  {
    var last := |s| - 1;
    if i < last {
      SelectPrefix(s[..last], i, keep);
      assert s[..last][..i] == s[..i];
    }
  }

  // ----- agreement with `pfn_to_index`

  /** A frame is in the range of a map exactly when one of its bytes is in the map, its end included. */
  lemma {:induction false} InRangeIff(m: PhysicalMemoryMap, pageSize: u64, p: nat)
    requires pageSize > 0
    ensures InRange(RangeOf(m, pageSize), p)
       <==> p * pageSize as int <= m.end as int && (m.start as int) < (p + 1) * pageSize as int
  {
    QuotientAtLeastIff(m.end as int, pageSize as int, p);
    QuotientAtLeastIff(m.start as int, pageSize as int, p + 1);
  }

  lemma {:induction false} QuotientAtLeastIff(a: nat, d: nat, p: nat)
    requires d > 0
    ensures p <= a / d <==> p * d <= a
  {
    QuotientBounds(a, d);
    if p <= a / d {
      TimesMonotone(d, p, a / d);
    } else {
      TimesMonotone(d, a / d + 1, p);
    }
  }

  /** The frames with an index, by the addresses of the maps. */
  lemma {:induction false} IndexedIff(iomem: seq<PhysicalMemoryMap>, pageSize: u64, p: nat)
    requires pageSize > 0
    ensures IndexOf(iomem, pageSize, p).Some?
       <==> p != 0 && exists m <- iomem ::
              p * pageSize as int <= m.end as int && (m.start as int) < (p + 1) * pageSize as int
  {
    var rs := RangesOf(iomem, pageSize);
    CoveredIff(rs, p);
    forall i | 0 <= i < |iomem|
      ensures InRange(rs[i], p) <==>
        p * pageSize as int <= iomem[i].end as int && (iomem[i].start as int) < (p + 1) * pageSize as int
    {
      RangeAt(iomem, pageSize, i);
      InRangeIff(iomem[i], pageSize, p);
    }
  }

  /** What `pfn_is_in_ram` finds is covered, by the same map. */
  lemma {:induction false} HeldIsInRange(m: PhysicalMemoryMap, pageSize: u64, p: nat)
    requires pageSize > 0 && HoldsPage(m, pageSize, p)
    ensures InRange(RangeOf(m, pageSize), p)
  {
    AtLeastQuotient(m.start as int, pageSize as int, p);
    AtMostQuotient(m.end as int, pageSize as int, p);
  }

  lemma {:induction false} AtLeastQuotient(a: nat, d: nat, p: nat)
    requires d > 0 && a <= p * d
    ensures a / d <= p
  {
    if p < a / d {
      Division(a, d);
      TimesMonotone(d, p + 1, a / d);
    }
  }

  lemma {:induction false} AtMostQuotient(b: nat, d: nat, p: nat)
    requires d > 0 && p * d < b
    ensures p <= b / d
  {
    if p > b / d {
      Division(b, d);
      TimesMonotone(d, b / d + 1, p);
    }
  }

  /** The map starts on a page, or in page 0, and does not end on the first byte of a page other than page 0. */
  predicate Aligned(m: PhysicalMemoryMap, pageSize: u64)
    requires pageSize > 0
  {
    && (m.start as int % pageSize as int == 0 || m.start < pageSize)
    && (m.end as int % pageSize as int != 0 || m.end < pageSize)
  }

  /** The first frame of a map that starts inside it, and the last frame of a map that ends on its first byte. */
  predicate IsPartial(m: PhysicalMemoryMap, pageSize: u64, p: nat)
    requires pageSize > 0
  {
    || (p == RangeOf(m, pageSize).first && m.start as int % pageSize as int != 0)
    || (p == RangeOf(m, pageSize).last && m.end as int % pageSize as int == 0)
  }

  /** These are exactly the frames of the map that fail its test. */
  lemma {:induction false} RefusedIffPartial(m: PhysicalMemoryMap, pageSize: u64, p: nat)
    requires pageSize > 0 && InRange(RangeOf(m, pageSize), p)
    ensures !HoldsPage(m, pageSize, p) <==> IsPartial(m, pageSize, p)
  {
    BelowStart(m.start as int, pageSize as int, p);
    PastEnd(m.end as int, pageSize as int, p);
  }

  lemma {:induction false} BelowStart(a: nat, d: nat, p: nat)
    requires d > 0 && p >= a / d
    ensures p * d < a <==> p == a / d && a % d != 0
  {
    Division(a, d);
    if p > a / d {
      TimesMonotone(d, a / d + 1, p);
    }
  }

  lemma {:induction false} PastEnd(b: nat, d: nat, p: nat)
    requires d > 0 && p <= b / d
    ensures p * d >= b <==> p == b / d && b % d == 0
  {
    Division(b, d);
    if p < b / d {
      TimesMonotone(d, p + 1, b / d);
    }
  }

  lemma {:induction false} Division(a: nat, d: nat)
    requires d > 0
    ensures a == d * (a / d) + a % d && a % d < d && d * (a / d + 1) == d * (a / d) + d
  {
  }

  /** In an aligned map, every frame other than frame 0 passes the test of `pfn_is_in_ram`. */
  lemma {:induction false} AlignedHolds(m: PhysicalMemoryMap, pageSize: u64, p: nat)
    requires pageSize > 0 && Aligned(m, pageSize) && p != 0 && InRange(RangeOf(m, pageSize), p)
    ensures HoldsPage(m, pageSize, p)
  {
    RefusedIffPartial(m, pageSize, p);
    SmallQuotient(m.start as int, pageSize as int);
    SmallQuotient(m.end as int, pageSize as int);
  }

  lemma {:induction false} SmallQuotient(a: nat, d: nat)
    requires d > 0
    ensures a < d ==> a / d == 0
  {
    QuotientBounds(a, d);
    if a / d > 0 {
      TimesMonotone(d, 1, a / d);
    }
  }

  /** In a map that is not, some frame other than frame 0 fails it: the first one or the last one. */
  lemma {:induction false} UnalignedFails(m: PhysicalMemoryMap, pageSize: u64) returns (p: nat)
    requires pageSize > 0 && m.start <= m.end && !Aligned(m, pageSize)
    ensures p != 0 && InRange(RangeOf(m, pageSize), p) && !HoldsPage(m, pageSize, p)
  {
    var d, a, b := pageSize as int, m.start as int, m.end as int;
    QuotientsOrdered(a, b, d);
    if a % d != 0 && a >= d {
      p := a / d;
      LargeQuotient(a, d);
    } else {
      p := b / d;
      LargeQuotient(b, d);
    }
    RefusedIffPartial(m, pageSize, p);
  }

  lemma {:induction false} LargeQuotient(a: nat, d: nat)
    requires a >= d > 0
    ensures a / d >= 1 && a == d * (a / d) + a % d
  {
    QuotientBounds(a, d);
    if a / d < 1 {
      TimesMonotone(d, a / d, 0);
    }
  }

  lemma {:induction false} QuotientsOrdered(a: nat, b: nat, d: nat)
    requires a <= b && d > 0
    ensures a / d <= b / d
  {
    QuotientBounds(a, d);
    QuotientBounds(b, d);
    if a / d > b / d {
      TimesMonotone(d, b / d + 1, a / d);
    }
  }

  /**
   On a layout, `pfn_is_in_ram` accepts every frame that has an index, frame 0 aside, exactly when every map
   is aligned; what it accepts always has an index, in the map it names.
   */
  lemma {:induction false} WalksAgreeIff(iomem: seq<PhysicalMemoryMap>, pageSize: u64)
    requires Layout(iomem, pageSize)
    ensures (forall p: nat | IndexOf(iomem, pageSize, p).Some? :: exists m <- iomem :: HoldsPage(m, pageSize, p))
       <==> forall m <- iomem :: Aligned(m, pageSize)
  {
    var rs := RangesOf(iomem, pageSize);
    if forall m <- iomem :: Aligned(m, pageSize) {
      forall p: nat | IndexOf(iomem, pageSize, p).Some? ensures exists m <- iomem :: HoldsPage(m, pageSize, p) {
        CoveredIff(rs, p);
        var i :| 0 <= i < |rs| && InRange(rs[i], p);
        RangeAt(iomem, pageSize, i);
        AlignedHolds(iomem[i], pageSize, p);
      }
    } else {
      var i :| 0 <= i < |iomem| && !Aligned(iomem[i], pageSize);
      var p := UnalignedFails(iomem[i], pageSize);
      RangeAt(iomem, pageSize, i);
      CoveredIff(rs, p);
      forall j | 0 <= j < |iomem| ensures !HoldsPage(iomem[j], pageSize, p) {
        if HoldsPage(iomem[j], pageSize, p) {
          HeldIsInRange(iomem[j], pageSize, p);
          RangeAt(iomem, pageSize, j);
        }
      }
      assert IndexOf(iomem, pageSize, p).Some?;
    }
  }

  lemma {:induction false} HeldOnce(iomem: seq<PhysicalMemoryMap>, pageSize: u64, i: nat, p: nat)
    requires Layout(iomem, pageSize) && i < |iomem| && InRange(RangesOf(iomem, pageSize)[i], p)
    ensures forall j | 0 <= j < |iomem| :: HoldsPage(iomem[j], pageSize, p) ==> j == i
  {
    forall j | 0 <= j < |iomem| && HoldsPage(iomem[j], pageSize, p) ensures j == i {
      HeldIsInRange(iomem[j], pageSize, p);
      RangeAt(iomem, pageSize, j);
    }
  }

  /** A frame of map `i` that has an index is refused exactly when the map holds only part of its page. */
  lemma {:induction false} RefusedFrame(iomem: seq<PhysicalMemoryMap>, pageSize: u64, i: nat, p: nat)
    requires Layout(iomem, pageSize) && i < |iomem| && p != 0 && InRange(RangesOf(iomem, pageSize)[i], p)
    ensures IndexOf(iomem, pageSize, p).Some?
    ensures (forall m <- iomem :: !HoldsPage(m, pageSize, p)) <==> IsPartial(iomem[i], pageSize, p)
  {
    CoveredIff(RangesOf(iomem, pageSize), p);
    RangeAt(iomem, pageSize, i);
    RefusedIffPartial(iomem[i], pageSize, p);
    HeldOnce(iomem, pageSize, i, p);
  }

  /** On a layout `pfn_is_in_ram` counts every map. */
  lemma {:induction false} LayoutIsRam(iomem: seq<PhysicalMemoryMap>, pageSize: u64)
    requires Layout(iomem, pageSize)
    ensures Select(iomem, IsRam()) == iomem
  {
    SelectSame(iomem, IsRam(), _ => true);
    SelectEverything(iomem);
  }

  /** The map that `pfn_is_in_ram` finds is the only one that holds the frame, and the one the index falls in. */
  lemma {:induction false} HeldHasIndex(iomem: seq<PhysicalMemoryMap>, pageSize: u64, i: nat, p: nat)
    requires Layout(iomem, pageSize) && i < |iomem| && p != 0 && HoldsPage(iomem[i], pageSize, p)
    ensures Select(iomem, IsRam()) == iomem
    ensures forall j | 0 <= j < |iomem| :: HoldsPage(iomem[j], pageSize, p) ==> j == i
    ensures var rs := RangesOf(iomem, pageSize);
            && InRange(rs[i], p)
            && IndexOf(iomem, pageSize, p) == Some(SizeBefore(rs, i) + p - rs[i].first)
  {
    LayoutIsRam(iomem, pageSize);
    HeldIsInRange(iomem[i], pageSize, p);
    RangeAt(iomem, pageSize, i);
    HeldOnce(iomem, pageSize, i, p);
    RankInRange(RangesOf(iomem, pageSize), i, p);
  }

  // ----- `get_pfn_count`

  /** The frames `get_range` gives for a map: from the start to the end, which is exclusive. */
  function RangeStart(m: PhysicalMemoryMap): nat {
    m.start as int / FRAME_SIZE as int
  }

  function RangeEnd(m: PhysicalMemoryMap): nat {
    (m.end as int + 1) / FRAME_SIZE as int
  }

  function PfnCount(iomem: seq<PhysicalMemoryMap>): int {
    if iomem == [] then 0
    else PfnCount(iomem[..|iomem| - 1]) + (RangeEnd(iomem[|iomem| - 1]) - RangeStart(iomem[|iomem| - 1]))
  }

  /** A map counts the frames whose last byte it holds, its end included. */
  lemma {:induction false} CountedIff(m: PhysicalMemoryMap, p: nat)
    ensures RangeStart(m) <= p < RangeEnd(m) <==> m.start as int <= p * 4096 + 4095 <= m.end as int
  {
  }

  lemma {:induction false} CountsJoin(a: seq<PhysicalMemoryMap>, b: seq<PhysicalMemoryMap>)
    ensures PfnCount(a + b) == PfnCount(a) + PfnCount(b)
  {
    if b == [] {
      assert a + b == a;
    } else {
      assert (a + b)[..|a + b| - 1] == a + b[..|b| - 1];
      CountsJoin(a, b[..|b| - 1]);
    }
  }

  /** The count of one map is the number of these frames. */
  lemma {:induction false} CountOfMap(m: PhysicalMemoryMap)
    requires m.start <= m.end
    ensures PfnCount([m]) == |CountedFrames(m)|
  {
    assert [m][..0] == [];
    FramesSize(RangeStart(m), RangeEnd(m) - 1);
    forall p: nat ensures p in CountedFrames(m) <==> p in Frames(RangeStart(m), RangeEnd(m) - 1) {
      CountedIff(m, p);
    }
    assert CountedFrames(m) == Frames(RangeStart(m), RangeEnd(m) - 1);
  }

  ghost function CountedFrames(m: PhysicalMemoryMap): set<nat> {
    set p: nat | p <= m.end as int && m.start as int <= p * 4096 + 4095 <= m.end as int
  }

  ghost predicate EndsOnPage(m: PhysicalMemoryMap) {
    (m.end as int + 1) % FRAME_SIZE as int == 0
  }

  lemma {:induction false} RangeEndIs(m: PhysicalMemoryMap)
    ensures RangeEnd(m) == RangeOf(m, FRAME_SIZE).last + if EndsOnPage(m) then 1 else 0
  {
  }

  lemma {:induction false} CountAgainstSize(iomem: seq<PhysicalMemoryMap>)
    ensures PfnCount(iomem) <= SizeBefore(RangesOf(iomem, FRAME_SIZE), |iomem|)
    ensures PfnCount(iomem) == SizeBefore(RangesOf(iomem, FRAME_SIZE), |iomem|) <==> forall m <- iomem :: EndsOnPage(m)
  {
    if iomem != [] {
      var front, last := iomem[..|iomem| - 1], iomem[|iomem| - 1];
      CountAgainstSize(front);
      RangeEndIs(last);
      SizeOfPrefix(RangesOf(front, FRAME_SIZE), RangeOf(last, FRAME_SIZE), |front|);
      assert iomem == front + [last];
    }
  }

  lemma {:induction false} SizeOfPrefix(rs: seq<Range>, r: Range, i: nat)
    requires i <= |rs|
    ensures SizeBefore(rs + [r], i) == SizeBefore(rs, i)
  {
    if i > 0 {
      SizeOfPrefix(rs, r, i - 1);
    }
  }

  /** `get_pfn_count` is the size of the index range exactly when every map ends with a page, and smaller otherwise. */
  lemma {:induction false} CountIsExactIff(iomem: seq<PhysicalMemoryMap>)
    requires Layout(iomem, FRAME_SIZE)
    ensures PfnCount(iomem) <= FrameCount(iomem, FRAME_SIZE)
    ensures PfnCount(iomem) == FrameCount(iomem, FRAME_SIZE) <==> forall m <- iomem :: EndsOnPage(m)
  {
    CountAgainstSize(iomem);
    WholeSize(RangesOf(iomem, FRAME_SIZE));
  }

  // ----- how far the indices of the counted frames go

  /** The number of frames counted for a map. */
  function CutSize(m: PhysicalMemoryMap): int {
    RangeEnd(m) - RangeStart(m)
  }

  /** One more than the greatest index of a counted frame. */
  function Reach(iomem: seq<PhysicalMemoryMap>): int {
    if iomem == [] then 0
    else
      var last := |iomem| - 1;
      if CutSize(iomem[last]) > 0 then SizeBefore(RangesOf(iomem, FRAME_SIZE), last) + CutSize(iomem[last])
      else Reach(iomem[..last])
  }

  /** The number of maps before the last one of which a frame is counted. */
  function MapsBeforeLast(iomem: seq<PhysicalMemoryMap>): nat {
    if iomem == [] then 0
    else if CutSize(iomem[|iomem| - 1]) > 0 then |iomem| - 1
    else MapsBeforeLast(iomem[..|iomem| - 1])
  }

  /** Every map before the last one of which a frame is counted ends with a page. */
  ghost predicate EndOnPages(iomem: seq<PhysicalMemoryMap>) {
    forall i | 0 <= i < |iomem| && i < MapsBeforeLast(iomem) :: EndsOnPage(iomem[i])
  }

  /** The indices of the counted frames are all below the count exactly when these maps end with a page. */
  lemma {:induction false} ReachIff(iomem: seq<PhysicalMemoryMap>)
    requires forall m <- iomem :: m.start <= m.end
    ensures Reach(iomem) <= PfnCount(iomem) <==> EndOnPages(iomem)
  {
    if iomem != [] {
      var last := |iomem| - 1;
      var front := iomem[..last];
      assert forall m <- front :: m in iomem;
      if CutSize(iomem[last]) > 0 {
        CountAgainstSize(front);
        SizeOfPrefix(RangesOf(front, FRAME_SIZE), RangeOf(iomem[last], FRAME_SIZE), last);
        assert (forall m <- front :: EndsOnPage(m)) <==> EndOnPages(iomem);
      } else {
        assert iomem[last] in iomem;
        NoCutBefore(front);
        ReachIff(front);
      }
    }
  }

  lemma {:induction false} CountNotNegative(iomem: seq<PhysicalMemoryMap>)
    requires forall m <- iomem :: m.start <= m.end
    ensures PfnCount(iomem) >= 0
  {
    if iomem != [] {
      var front, last := iomem[..|iomem| - 1], iomem[|iomem| - 1];
      assert last in iomem && forall m <- front :: m in iomem;
      CountNotNegative(front);
      assert RangeEnd(last) >= RangeStart(last);
    }
  }

  lemma {:induction false} NoCutBefore(iomem: seq<PhysicalMemoryMap>)
    ensures MapsBeforeLast(iomem) <= |iomem|
    ensures iomem != [] ==> MapsBeforeLast(iomem) < |iomem|
  {
    if iomem != [] {
      NoCutBefore(iomem[..|iomem| - 1]);
    }
  }

  /** Counted frame `k` of map `i` has an index below the reach. */
  lemma {:induction false} BelowReach(iomem: seq<PhysicalMemoryMap>, i: nat, k: nat)
    requires Layout(iomem, FRAME_SIZE) && i < |iomem| && k < CutSize(iomem[i])
    ensures SizeBefore(RangesOf(iomem, FRAME_SIZE), i) + k < Reach(iomem)
    decreases |iomem|
  {
    var last := |iomem| - 1;
    var rs := RangesOf(iomem, FRAME_SIZE);
    if i < last {
      if CutSize(iomem[last]) > 0 {
        RangeAt(iomem, FRAME_SIZE, i);
        RangeEndIs(iomem[i]);
        SizeGrows(rs, i + 1, last);
      } else {
        LayoutFront(iomem);
        BelowReach(iomem[..last], i, k);
        SizeOfPrefix(RangesOf(iomem[..last], FRAME_SIZE), RangeOf(iomem[last], FRAME_SIZE), i);
      }
    }
  }

  lemma {:induction false} LayoutFront(iomem: seq<PhysicalMemoryMap>)
    requires Layout(iomem, FRAME_SIZE) && iomem != []
    ensures Layout(iomem[..|iomem| - 1], FRAME_SIZE)
  {
    var front := RangesOf(iomem[..|iomem| - 1], FRAME_SIZE);
    assert forall i | 0 <= i < |front| :: front[i] == RangesOf(iomem, FRAME_SIZE)[i];
  }

  /** And one counted frame has the index just below the reach. */
  lemma {:induction false} ReachAttained(iomem: seq<PhysicalMemoryMap>) returns (i: nat, k: nat)
    requires Reach(iomem) > 0
    ensures i < |iomem| && k < CutSize(iomem[i])
    ensures SizeBefore(RangesOf(iomem, FRAME_SIZE), i) + k == Reach(iomem) - 1
  {
    var last := |iomem| - 1;
    if CutSize(iomem[last]) > 0 {
      i, k := last, CutSize(iomem[last]) - 1;
    } else {
      i, k := ReachAttained(iomem[..last]);
      SizeOfPrefix(RangesOf(iomem[..last], FRAME_SIZE), RangeOf(iomem[last], FRAME_SIZE), i);
    }
  }

  /** A common first map, from 0x1000 to 0x9fbff, ends inside a page, which is not counted. */
  lemma {:induction false} PartialPageNotCounted()
    ensures var iomem := [PhysicalMemoryMap(SYSTEM_RAM, 0x1000, 0x9fbff)];
            && Layout(iomem, FRAME_SIZE)
            && PfnCount(iomem) == 0x9e && FrameCount(iomem, FRAME_SIZE) == 0x9f
  {
    var m := PhysicalMemoryMap(SYSTEM_RAM, 0x1000, 0x9fbff);
    var rs := RangesOf([m], FRAME_SIZE);
    RangeAt([m], FRAME_SIZE, 0);
    WholeSize(rs);
    assert SizeBefore(rs, 0) == 0 && SizeBefore(rs, 1) == 0x9f;
    assert PfnCount([m][..0]) == 0;
  }

  /** The first frame of a map that does not start on a page has an index and is not found in RAM. */
  lemma {:induction false} PartialPageNotInRam()
    ensures var m := PhysicalMemoryMap(SYSTEM_RAM, 0x1234, 0x9ffff);
            && Layout([m], FRAME_SIZE)
            && IndexOf([m], FRAME_SIZE, 1).Some? && !HoldsPage(m, FRAME_SIZE, 1)
  {
    var m := PhysicalMemoryMap(SYSTEM_RAM, 0x1234, 0x9ffff);
    RangeAt([m], FRAME_SIZE, 0);
    CoveredIff(RangesOf([m], FRAME_SIZE), 1);
    assert InRange(RangesOf([m], FRAME_SIZE)[0], 1);
  }
}
