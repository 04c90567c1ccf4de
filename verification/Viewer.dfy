/** Painting the flags of physical pages through the index mapping. */
module Viewer {
  import opened Wrappers
  import opened Ranges
  import opened IoMem
  import opened RamWalk
  import opened CompoundPages

  datatype Color = Color(red: nat, green: nat, blue: nat, alpha: nat)

  /** Flags of the frames from `start` to `end`, which is exclusive. */
  datatype Segment = Segment(start: u64, end: u64, flags: seq<Flags>)

  /** A frame and its flags. */
  type Dot = (nat, Flags)

  type Spot = (nat, nat)

  /** The three selected flags shown as the three colours. */
  function Paint(flag: Flags, r: Flags, g: Flags, b: Flags): Color {
    Color(if r <= flag then 255 else 0, if g <= flag then 255 else 0, if b <= flag then 255 else 0, 255)
  }

  /** The first `n` frames of a segment. */
  function FirstDots(s: Segment, n: nat): set<Dot>
    requires n <= |s.flags|
  {
    set k | 0 <= k < n :: (s.start as int + k, s.flags[k])
  }

  function DotsOfSegment(s: Segment): set<Dot> {
    FirstDots(s, |s.flags|)
  }

  /** All the frames of the segments. */
  function Dots(segments: seq<Segment>): set<Dot> {
    if segments == [] then {} else Dots(segments[..|segments| - 1]) + DotsOfSegment(segments[|segments| - 1])
  }

  /** Where a frame is painted: `place` stands for the Hilbert curve. */
  ghost function SpotOf(iomem: seq<PhysicalMemoryMap>, place: nat -> Spot, pfn: nat): Spot
    requires IndexOf(iomem, FRAME_SIZE, pfn).Some?
  {
    place(IndexOf(iomem, FRAME_SIZE, pfn).value)
  }

  // ----- the image

  /** The curve of order `n` visits a square of this side. */
  function Side(n: nat): nat {
    if n == 0 then 1 else 2 * Side(n - 1)
  }

  /** The number of pixels of that square. */
  function Pixels(n: nat): nat {
    if n == 0 then 1 else 4 * Pixels(n - 1)
  }

  lemma {:induction false} PixelsOfSquare(n: nat)
    ensures Pixels(n) == Side(n) * Side(n)
  {
    if n > 0 {
      PixelsOfSquare(n - 1);
      Doubled(Side(n - 1));
    }
  }

  lemma {:induction false} Doubled(x: nat)
    ensures (2 * x) * (2 * x) == 4 * (x * x)
  {
  }

  lemma {:induction false} PixelsGrow(m: nat, n: nat)
    requires m <= n
    ensures 0 < Pixels(m) <= Pixels(n) && n < Pixels(n)
  {
    if m < n {
      PixelsGrow(m, n - 1);
    } else if n > 0 {
      PixelsGrow(n - 1, n - 1);
    }
  }

  /** The least order whose square has `count` pixels: half the binary logarithm, rounded up. */
  function OrderOf(count: nat): (n: nat)
    ensures count <= Pixels(n)
    ensures forall m: nat | m < n :: Pixels(m) < count
  {
    OrderFrom(count, 0)
  }

  function OrderFrom(count: nat, n: nat): (r: nat)
    requires forall m: nat | m < n :: Pixels(m) < count
    ensures r >= n && count <= Pixels(r)
    ensures forall m: nat | m < r :: Pixels(m) < count
    decreases count - n
  {
    PixelsGrow(n, n);
    if count <= Pixels(n) then n else OrderFrom(count, n + 1)
  }

  const BACKGROUND := Color(79, 79, 79, 255)

  /** The greatest order whose side is a 16-bit number. */
  const MAX_ORDER: nat := 15

  /** The greatest order whose side fits in 16 bits. */
  lemma {:induction false} SideFitsIff(n: nat)
    ensures Side(n) <= 0xffff <==> n <= MAX_ORDER
  {
    assert Side(5) == 0x20 && Side(10) == 0x400 && Side(15) == 0x8000;
    if n < MAX_ORDER {
      SideGrows(n, MAX_ORDER);
    } else if n > MAX_ORDER {
      SideGrows(MAX_ORDER + 1, n);
    }
  }

  lemma {:induction false} SideGrows(m: nat, n: nat)
    requires m <= n
    ensures Side(m) <= Side(n)
  {
    if m < n {
      SideGrows(m, n - 1);
    }
  }

  /** The number of pixels of the largest image. */
  lemma {:induction false} LargestImage()
    ensures Pixels(MAX_ORDER) == 0x4000_0000
  {
    assert Pixels(5) == 0x400;
    assert Pixels(10) == 0x10_0000;
  }

  lemma {:induction false} DrawnIff(count: nat)
    ensures OrderOf(count) <= MAX_ORDER <==> count <= 0x4000_0000
  {
    LargestImage();
    if OrderOf(count) <= MAX_ORDER {
      PixelsGrow(OrderOf(count), MAX_ORDER);
    }
  }

  /** The first image, sized by `get_pfn_count`; `None` when the side overflows its 16 bits. */
  method BlankImage(iomem: seq<PhysicalMemoryMap>) returns (img: Option<array2<Color>>, order: nat)
    requires forall m <- iomem :: m.start <= m.end
    ensures PfnCount(iomem) >= 0 && order == OrderOf(PfnCount(iomem))
    ensures img.Some? <==> PfnCount(iomem) <= 0x4000_0000
    ensures img.Some? ==>
      && fresh(img.value) && img.value.Length0 == img.value.Length1 == Side(order)
      && forall x, y | 0 <= x < Side(order) && 0 <= y < Side(order) :: img.value[x, y] == Color(79, 79, 79, 255)
  {
    CountNotNegative(iomem);
    var count := PfnCount(iomem);
    order := OrderOf(count);
    DrawnIff(count);
    if order > MAX_ORDER {
      return None, order;
    }
    var blank := new Color[Side(order), Side(order)]((x: nat, y: nat) => BACKGROUND);
    img := Some(blank);
  }

  // ----- painting

  /** `place` sends the indices below the number of pixels to different pixels: the Hilbert curve of this order. */
  ghost predicate IsCurve(place: nat -> Spot, order: nat) {
    && (forall i | 0 <= i < Pixels(order) :: place(i).0 < Side(order) && place(i).1 < Side(order))
    && forall i, j | 0 <= i < j < Pixels(order) :: place(i) != place(j)
  }

  /** The frame has an index, and it is below this bound. */
  ghost predicate IndexedBelow(iomem: seq<PhysicalMemoryMap>, bound: nat, pfn: nat) {
    IndexOf(iomem, FRAME_SIZE, pfn).Some? && IndexOf(iomem, FRAME_SIZE, pfn).value < bound
  }

  /** The frame has an index, and the curve of this order reaches it. */
  ghost predicate OnCurve(iomem: seq<PhysicalMemoryMap>, order: nat, pfn: nat) {
    IndexedBelow(iomem, Pixels(order), pfn)
  }

  ghost predicate Drawable(iomem: seq<PhysicalMemoryMap>, order: nat, dots: set<Dot>) {
    forall d <- dots :: OnCurve(iomem, order, d.0)
  }

  /** No frame has two different flags. */
  ghost predicate Consistent(dots: set<Dot>) {
    forall c <- dots, d <- dots | c.0 == d.0 :: c == d
  }

  /** Different frames are painted at different places. */
  lemma {:induction false} SpotsDiffer(iomem: seq<PhysicalMemoryMap>, order: nat, place: nat -> Spot, p: nat, q: nat)
    requires IsCurve(place, order) && OnCurve(iomem, order, p) && OnCurve(iomem, order, q) && p != q
    ensures SpotOf(iomem, place, p) != SpotOf(iomem, place, q)
  {
    if p < q {
      IndexMonotone(iomem, FRAME_SIZE, p, q);
    } else {
      IndexMonotone(iomem, FRAME_SIZE, q, p);
    }
  }

  ghost predicate ShowsDot(
    img: array2<Color>, iomem: seq<PhysicalMemoryMap>, order: nat, place: nat -> Spot, d: Dot,
    r: Flags, g: Flags, b: Flags)
    reads img
  {
    && OnCurve(iomem, order, d.0)
    && var spot := SpotOf(iomem, place, d.0);
       spot.0 < img.Length0 && spot.1 < img.Length1 && img[spot.0, spot.1] == Paint(d.1, r, g, b)
  }

  /** The image shows the dots, and is the default one everywhere else. */
  ghost predicate Shown(
    img: array2<Color>, default: array2<Color>, iomem: seq<PhysicalMemoryMap>, order: nat, place: nat -> Spot,
    dots: set<Dot>, r: Flags, g: Flags, b: Flags)
    reads img, default
  {
    && img.Length0 == default.Length0 && img.Length1 == default.Length1
    && (forall d {:trigger ShowsDot(img, iomem, order, place, d, r, g, b)} | d in dots ::
          ShowsDot(img, iomem, order, place, d, r, g, b))
    && forall x, y | 0 <= x < img.Length0 && 0 <= y < img.Length1 && img[x, y] != default[x, y] ::
         exists d <- dots :: OnCurve(iomem, order, d.0) && SpotOf(iomem, place, d.0) == (x, y)
  }

  /** The index of a frame; when there is one, the assertion on the two conversions holds. */
  method Locate(iomem: seq<PhysicalMemoryMap>, pfn: u64) returns (index: Option<u64>)
    requires Layout(iomem, FRAME_SIZE)
    ensures match index
            case None => IndexOf(iomem, FRAME_SIZE, pfn as int) == None
            case Some(i) => IndexOf(iomem, FRAME_SIZE, pfn as int) == Some(i as int)
  {
    RealPagesFit(iomem, FRAME_SIZE);
    index := PfnToIndex(iomem, FRAME_SIZE, pfn);
    if index.Some? {
      MutualInverses(iomem, FRAME_SIZE);
      var pfn2 := IndexToPfn(iomem, FRAME_SIZE, index.value);
      assert pfn == pfn2.value;
    }
  }

  /** Paints one frame, unless it has no index or the curve does not reach it; `sound` if no frame has two flags. */
  method PaintDot(
    img: array2<Color>, ghost default: array2<Color>, iomem: seq<PhysicalMemoryMap>, order: nat, place: nat -> Spot,
    ghost dots: set<Dot>, ghost sound: bool, pfn: u64, flag: Flags, r: Flags, g: Flags, b: Flags)
    returns (ok: bool)
    requires img != default && Layout(iomem, FRAME_SIZE)
    requires img.Length0 == img.Length1 == Side(order) && IsCurve(place, order)
    requires sound ==> Consistent(dots + {(pfn as int, flag)})
    requires sound ==> Shown(img, default, iomem, order, place, dots, r, g, b)
    modifies img
    ensures ok <==> OnCurve(iomem, order, pfn as int)
    ensures ok && sound ==> Shown(img, default, iomem, order, place, dots + {(pfn as int, flag)}, r, g, b)
  {
    var index := Locate(iomem, pfn);
    if index == None || index.value as int >= Pixels(order) {
      return false;
    }
    ghost var dot := (pfn as int, flag);
    var (x, y) := place(index.value as int);
    if sound {
      forall d <- dots
        ensures ShowsDot(img, iomem, order, place, d, r, g, b)
        ensures d == dot || SpotOf(iomem, place, d.0) != (x, y)
      {
        assert ShowsDot(img, iomem, order, place, d, r, g, b);
        assert d in dots + {dot} && dot in dots + {dot};
        if d != dot {
          SpotsDiffer(iomem, order, place, d.0, pfn as int);
        }
      }
    }
    img[x, y] := Paint(flag, r, g, b);
    return true;
  }

  lemma {:induction false} ConsistentSubset(dots: set<Dot>, fewer: set<Dot>)
    requires Consistent(dots) && fewer <= dots
    ensures Consistent(fewer)
  {
  }

  /** One more frame of a segment. */
  lemma {:induction false} NextDot(dots: set<Dot>, segment: Segment, k: nat)
    requires k < |segment.flags|
    ensures var next := dots + FirstDots(segment, k) + {(segment.start as int + k, segment.flags[k])};
            && next == dots + FirstDots(segment, k + 1)
            && (Consistent(dots + DotsOfSegment(segment)) ==> Consistent(next))
  {
    if Consistent(dots + DotsOfSegment(segment)) {
      ConsistentSubset(dots + DotsOfSegment(segment), dots + FirstDots(segment, k + 1));
    }
  }

  lemma {:induction false} NextDrawable(iomem: seq<PhysicalMemoryMap>, order: nat, segment: Segment, k: nat)
    requires k < |segment.flags| && Drawable(iomem, order, FirstDots(segment, k))
    ensures if OnCurve(iomem, order, segment.start as int + k) then Drawable(iomem, order, FirstDots(segment, k + 1))
            else !Drawable(iomem, order, DotsOfSegment(segment))
  {
    assert (segment.start as int + k, segment.flags[k]) in DotsOfSegment(segment);
  }

  /** The assertion at the head of the outer loop. */
  predicate IsSized(segment: Segment) {
    segment.start <= segment.end && (segment.end - segment.start) as int == |segment.flags|
  }

  /** The inner loop: the frames of one segment, after those already painted. */
  method PaintSegment(
    img: array2<Color>, ghost default: array2<Color>, iomem: seq<PhysicalMemoryMap>, order: nat, place: nat -> Spot,
    ghost dots: set<Dot>, ghost sound: bool, segment: Segment, r: Flags, g: Flags, b: Flags)
    returns (ok: bool)
    requires img != default && Layout(iomem, FRAME_SIZE) && IsSized(segment)
    requires img.Length0 == img.Length1 == Side(order) && IsCurve(place, order)
    requires sound ==> Consistent(dots + DotsOfSegment(segment))
    requires sound ==> Shown(img, default, iomem, order, place, dots, r, g, b)
    modifies img
    ensures ok <==> Drawable(iomem, order, DotsOfSegment(segment))
    ensures ok && sound ==> Shown(img, default, iomem, order, place, dots + DotsOfSegment(segment), r, g, b)
  {
    assert dots + FirstDots(segment, 0) == dots;
    for k := 0 to |segment.flags|
      invariant Drawable(iomem, order, FirstDots(segment, k))
      invariant sound ==> Shown(img, default, iomem, order, place, dots + FirstDots(segment, k), r, g, b)
    {
      var pfn := segment.start + k as u64;
      NextDot(dots, segment, k);
      ok := PaintDot(
        img, default, iomem, order, place, dots + FirstDots(segment, k), sound, pfn, segment.flags[k], r, g, b);
      NextDrawable(iomem, order, segment, k);
      if !ok {
        return;
      }
    }
    ok := true;
  }

  lemma {:induction false} DotsOfPrefix(segments: seq<Segment>, n: nat)
    requires n <= |segments|
    ensures Dots(segments[..n]) <= Dots(segments)
    decreases |segments|
  {
    if n < |segments| {
      var front := segments[..|segments| - 1];
      DotsOfPrefix(front, n);
      assert front[..n] == segments[..n];
    } else {
      assert segments[..n] == segments;
    }
  }

  lemma {:induction false} DotsNext(segments: seq<Segment>, i: nat)
    requires i < |segments|
    ensures Dots(segments[..i + 1]) == Dots(segments[..i]) + DotsOfSegment(segments[i]) <= Dots(segments)
    ensures Consistent(Dots(segments)) ==> Consistent(Dots(segments[..i + 1]))
  {
    assert segments[..i + 1][..i] == segments[..i];
    DotsOfPrefix(segments, i + 1);
    if Consistent(Dots(segments)) {
      ConsistentSubset(Dots(segments), Dots(segments[..i + 1]));
    }
  }

  /** The segments can all be painted, one after the other. */
  ghost predicate AllPainted(iomem: seq<PhysicalMemoryMap>, order: nat, segments: seq<Segment>) {
    segments != [] ==>
      var last := |segments| - 1;
      && AllPainted(iomem, order, segments[..last])
      && IsSized(segments[last])
      && Drawable(iomem, order, DotsOfSegment(segments[last]))
  }

  lemma {:induction false} AllPaintedIff(iomem: seq<PhysicalMemoryMap>, order: nat, segments: seq<Segment>)
    ensures AllPainted(iomem, order, segments)
       <==> (forall s <- segments :: IsSized(s)) && Drawable(iomem, order, Dots(segments))
  {
    if segments != [] {
      var front, last := segments[..|segments| - 1], segments[|segments| - 1];
      AllPaintedIff(iomem, order, front);
      assert segments == front + [last];
    }
  }

  lemma {:induction false} AllPaintedPrefix(iomem: seq<PhysicalMemoryMap>, order: nat, segments: seq<Segment>, n: nat)
    requires AllPainted(iomem, order, segments) && n <= |segments|
    ensures AllPainted(iomem, order, segments[..n])
    decreases |segments|
  {
    if n < |segments| {
      var front := segments[..|segments| - 1];
      AllPaintedPrefix(iomem, order, front, n);
      assert front[..n] == segments[..n];
    } else {
      assert segments[..n] == segments;
    }
  }

  /** A segment that cannot be painted stops the painting of the whole. */
  lemma {:induction false} OneNotPainted(iomem: seq<PhysicalMemoryMap>, order: nat, segments: seq<Segment>, i: nat)
    requires i < |segments|
    requires !IsSized(segments[i]) || !Drawable(iomem, order, DotsOfSegment(segments[i]))
    ensures !AllPainted(iomem, order, segments)
  {
    if AllPainted(iomem, order, segments) {
      AllPaintedPrefix(iomem, order, segments, i + 1);
    }
  }

  /** The loops, on a copy of the default image. */
  method PaintSegments(
    img: array2<Color>, ghost default: array2<Color>, segments: seq<Segment>, iomem: seq<PhysicalMemoryMap>,
    order: nat, place: nat -> Spot, r: Flags, g: Flags, b: Flags)
    returns (ok: bool)
    requires img != default && Layout(iomem, FRAME_SIZE)
    requires img.Length0 == img.Length1 == Side(order) && IsCurve(place, order)
    requires Shown(img, default, iomem, order, place, {}, r, g, b)
    modifies img
    ensures ok <==> AllPainted(iomem, order, segments)
    ensures ok && Consistent(Dots(segments)) ==>
      Shown(img, default, iomem, order, place, Dots(segments), r, g, b)
  {
    ghost var sound := Consistent(Dots(segments));
    for i := 0 to |segments|
      invariant AllPainted(iomem, order, segments[..i])
      invariant sound ==> Shown(img, default, iomem, order, place, Dots(segments[..i]), r, g, b)
    {
      DotsNext(segments, i);
      if !IsSized(segments[i]) {
        OneNotPainted(iomem, order, segments, i);
        return false;
      }
      ok := PaintSegment(img, default, iomem, order, place, Dots(segments[..i]), sound, segments[i], r, g, b);
      if !ok {
        OneNotPainted(iomem, order, segments, i);
        return;
      }
      assert segments[..i + 1][..i] == segments[..i];
    }
    assert segments[..|segments|] == segments;
    return true;
  }

  /**
   `None` stands for a panic on the assertion or on a frame without an index, and for a frame whose index is outside
   the square of the curve.
   */
  method GenImage(
    default: array2<Color>, segments: seq<Segment>, iomem: seq<PhysicalMemoryMap>, order: nat, place: nat -> Spot,
    r: Flags, g: Flags, b: Flags)
    returns (img: Option<array2<Color>>)
    requires Layout(iomem, FRAME_SIZE)
    requires default.Length0 == default.Length1 == Side(order) && IsCurve(place, order)
    ensures img.Some?
       <==> && (forall s <- segments :: s.start as int + |s.flags| == s.end as int)
            && Drawable(iomem, order, Dots(segments))
    ensures img.Some? ==> fresh(img.value)
    ensures img.Some? && Consistent(Dots(segments)) ==>
      Shown(img.value, default, iomem, order, place, Dots(segments), r, g, b)
  {
    var copy := new Color[default.Length0, default.Length1](
      (x: nat, y: nat) requires x < default.Length0 && y < default.Length1 reads default => default[x, y]);
    AllPaintedIff(iomem, order, segments);
    var ok := PaintSegments(copy, default, segments, iomem, order, place, r, g, b);
    img := if ok then Some(copy) else None;
  }

  /** The red, green and blue of a painted pixel tell whether the frame has all of the first, second and third flags. */
  lemma {:induction false} PixelTells(
    img: array2<Color>, default: array2<Color>, iomem: seq<PhysicalMemoryMap>, order: nat, place: nat -> Spot,
    dots: set<Dot>, r: Flags, g: Flags, b: Flags, pfn: nat, flags: Flags, x: nat, y: nat)
    requires Shown(img, default, iomem, order, place, dots, r, g, b) && (pfn, flags) in dots
    requires IndexOf(iomem, FRAME_SIZE, pfn).Some? && place(IndexOf(iomem, FRAME_SIZE, pfn).value) == (x, y)
    ensures x < img.Length0 && y < img.Length1
    ensures img[x, y].red == if forall k <- r :: k in flags then 255 else 0
    ensures img[x, y].green == if forall k <- g :: k in flags then 255 else 0
    ensures img[x, y].blue == if forall k <- b :: k in flags then 255 else 0
    ensures img[x, y].alpha == 255
  {
    assert ShowsDot(img, iomem, order, place, (pfn, flags), r, g, b);
  }

  // ----- the segments the server sends

  /** One segment for each map, as `get_range` cuts it. */
  ghost predicate SegmentsOf(segments: seq<Segment>, iomem: seq<PhysicalMemoryMap>) {
    && |segments| == |iomem|
    && forall i | 0 <= i < |iomem| ::
         && segments[i].start as int == RangeStart(iomem[i])
         && segments[i].start as int + |segments[i].flags| == RangeEnd(iomem[i])
  }

  /** The frames of a segment are in the range of its map. */
  lemma {:induction false} SegmentInRange(m: PhysicalMemoryMap, s: Segment, k: nat)
    requires s.start as int == RangeStart(m) && s.start as int + |s.flags| == RangeEnd(m) && k < |s.flags|
    ensures InRange(RangeOf(m, FRAME_SIZE), s.start as int + k)
  {
    RangeEndIs(m);
  }

  lemma {:induction false} DotOfSegments(segments: seq<Segment>, d: Dot) returns (i: nat, k: nat)
    requires d in Dots(segments)
    ensures i < |segments| && k < |segments[i].flags| && d == (segments[i].start as int + k, segments[i].flags[k])
    decreases |segments|
  {
    var last := |segments| - 1;
    if d in Dots(segments[..last]) {
      i, k := DotOfSegments(segments[..last], d);
    } else {
      i := last;
      k :| 0 <= k < |segments[last].flags| && d == (segments[last].start as int + k, segments[last].flags[k]);
    }
  }

  /** Counted frame `k` of map `i`: its index, if it is not frame 0. */
  lemma {:induction false} SegmentIndex(iomem: seq<PhysicalMemoryMap>, s: Segment, i: nat, k: nat)
    requires Layout(iomem, FRAME_SIZE) && i < |iomem|
    requires s.start as int == RangeStart(iomem[i]) && s.start as int + |s.flags| == RangeEnd(iomem[i])
    requires k < |s.flags|
    ensures InRange(RangesOf(iomem, FRAME_SIZE)[i], s.start as int + k)
    ensures var index := SizeBefore(RangesOf(iomem, FRAME_SIZE), i) + k;
            && index >= 0
            && (s.start as int + k != 0 ==> IndexOf(iomem, FRAME_SIZE, s.start as int + k) == Some(index))
  {
    SegmentInRange(iomem[i], s, k);
    RangeAt(iomem, FRAME_SIZE, i);
    SizeBound(RangesOf(iomem, FRAME_SIZE), i);
    RankInRange(RangesOf(iomem, FRAME_SIZE), i, s.start as int + k);
  }

  lemma {:induction false} DotInSegments(segments: seq<Segment>, i: nat, k: nat)
    requires i < |segments| && k < |segments[i].flags|
    ensures (segments[i].start as int + k, segments[i].flags[k]) in Dots(segments)
  {
    DotsNext(segments, i);
    assert (segments[i].start as int + k, segments[i].flags[k]) in DotsOfSegment(segments[i]);
  }

  /** The segments of a layout never give two flags to a frame. */
  lemma {:induction false} SegmentsConsistent(segments: seq<Segment>, iomem: seq<PhysicalMemoryMap>)
    requires Layout(iomem, FRAME_SIZE) && SegmentsOf(segments, iomem)
    ensures Consistent(Dots(segments))
  {
    var rs := RangesOf(iomem, FRAME_SIZE);
    forall c <- Dots(segments), d <- Dots(segments) | c.0 == d.0 ensures c == d {
      var i, k := DotOfSegments(segments, c);
      var j, l := DotOfSegments(segments, d);
      SegmentIndex(iomem, segments[i], i, k);
      SegmentIndex(iomem, segments[j], j, l);
      assert InRange(rs[i], c.0) && InRange(rs[j], c.0);
    }
  }

  /** Every counted frame has an index below a bound exactly when none is frame 0 and the bound is beyond the reach. */
  lemma {:induction false} IndicesBelowIff(segments: seq<Segment>, iomem: seq<PhysicalMemoryMap>, bound: nat)
    requires Layout(iomem, FRAME_SIZE) && SegmentsOf(segments, iomem)
    ensures (forall d <- Dots(segments) :: IndexedBelow(iomem, bound, d.0))
       <==> (forall d <- Dots(segments) :: d.0 != 0) && Reach(iomem) <= bound
  {
    if (forall d <- Dots(segments) :: d.0 != 0) && Reach(iomem) <= bound {
      forall d <- Dots(segments) ensures IndexedBelow(iomem, bound, d.0) {
        var i, k := DotOfSegments(segments, d);
        SegmentIndex(iomem, segments[i], i, k);
        BelowReach(iomem, i, k);
      }
    }
    if (forall d <- Dots(segments) :: IndexedBelow(iomem, bound, d.0)) && Reach(iomem) > 0 {
      var i, k := ReachAttained(iomem);
      DotInSegments(segments, i, k);
      SegmentIndex(iomem, segments[i], i, k);
    }
  }

  /**
   The segments of a layout can be painted on the square of some order exactly when frame 0 is in none of them and the
   square has a pixel for every index up to the greatest of a counted frame.
   */
  lemma {:induction false} SegmentsDrawableIff(segments: seq<Segment>, iomem: seq<PhysicalMemoryMap>, order: nat)
    requires Layout(iomem, FRAME_SIZE) && SegmentsOf(segments, iomem)
    ensures Drawable(iomem, order, Dots(segments))
       <==> (forall d <- Dots(segments) :: d.0 != 0) && Reach(iomem) <= Pixels(order)
  {
    IndicesBelowIff(segments, iomem, Pixels(order));
    assert Drawable(iomem, order, Dots(segments))
      <==> forall d <- Dots(segments) :: IndexedBelow(iomem, Pixels(order), d.0);
  }

  /**
   The painted indices are all below `get_pfn_count` exactly when frame 0 is in no segment and every map before the last
   one that has a frame in its segment ends with a page.
   */
  lemma {:induction false} IndicesBelowCountIff(segments: seq<Segment>, iomem: seq<PhysicalMemoryMap>)
    requires Layout(iomem, FRAME_SIZE) && SegmentsOf(segments, iomem)
    ensures PfnCount(iomem) >= 0
    ensures (forall d <- Dots(segments) :: IndexedBelow(iomem, PfnCount(iomem), d.0))
       <==> (forall d <- Dots(segments) :: d.0 != 0) && EndOnPages(iomem)
  {
    CountNotNegative(iomem);
    ReachIff(iomem);
    IndicesBelowIff(segments, iomem, PfnCount(iomem));
  }

  /**
   On the image that the viewer makes, painting succeeds exactly when frame 0 is in no segment and the rounded size
   covers the reach; it does whenever the maps before the last counted one end with a page.
   */
  lemma {:induction false} ViewerDrawableIff(segments: seq<Segment>, iomem: seq<PhysicalMemoryMap>)
    requires Layout(iomem, FRAME_SIZE) && SegmentsOf(segments, iomem)
    ensures PfnCount(iomem) >= 0
    ensures Drawable(iomem, OrderOf(PfnCount(iomem)), Dots(segments))
       <==> (forall d <- Dots(segments) :: d.0 != 0) && Reach(iomem) <= Pixels(OrderOf(PfnCount(iomem)))
    ensures EndOnPages(iomem) ==> Reach(iomem) <= Pixels(OrderOf(PfnCount(iomem)))
  {
    CountNotNegative(iomem);
    ReachIff(iomem);
    SegmentsDrawableIff(segments, iomem, OrderOf(PfnCount(iomem)));
  }

  // ----- inputs on which the viewer fails

  lemma {:induction false} OrderIs(count: nat, n: nat)
    requires count <= Pixels(n) && (n > 0 ==> Pixels(n - 1) < count)
    ensures OrderOf(count) == n
  {
    if OrderOf(count) < n {
      PixelsGrow(OrderOf(count), n - 1);
    }
  }

  /** Two maps, the first of which ends inside a page: five indices for an image of four pixels. */
  lemma {:induction false} ViewerImageTooSmall(segments: seq<Segment>)
    requires SegmentsOf(segments, [PhysicalMemoryMap(SYSTEM_RAM, 0x1000, 0x17ff),
                                   PhysicalMemoryMap(SYSTEM_RAM, 0x2000, 0x5fff)])
    ensures var iomem := [PhysicalMemoryMap(SYSTEM_RAM, 0x1000, 0x17ff), PhysicalMemoryMap(SYSTEM_RAM, 0x2000, 0x5fff)];
            && Layout(iomem, FRAME_SIZE) && PfnCount(iomem) == 4 && Pixels(OrderOf(4)) == 4
            && (forall d <- Dots(segments) :: d.0 != 0)
            && !Drawable(iomem, OrderOf(4), Dots(segments))
  {
    var a, b := PhysicalMemoryMap(SYSTEM_RAM, 0x1000, 0x17ff), PhysicalMemoryMap(SYSTEM_RAM, 0x2000, 0x5fff);
    var iomem := [a, b];
    assert iomem[..|iomem| - 1] == [a] && [a][..0] == [];
    RangeAt(iomem, FRAME_SIZE, 0);
    RangeAt(iomem, FRAME_SIZE, 1);
    var rs := RangesOf(iomem, FRAME_SIZE);
    assert SizeBefore(rs, 0) == 0 && SizeBefore(rs, 1) == 1;
    assert Reach(iomem) == 5;
    assert PfnCount([a]) == 0;
    assert PfnCount(iomem) == PfnCount([a]) + 4;
    OrderIs(4, 1);
    SegmentsDrawableIff(segments, iomem, 1);
    forall d <- Dots(segments) ensures d.0 != 0 {
      var i, k := DotOfSegments(segments, d);
    }
  }

  /** A map that starts at address 0 puts frame 0 in its segment: no image can be painted. */
  lemma {:induction false} FrameZeroNotPainted(segments: seq<Segment>, order: nat)
    requires SegmentsOf(segments, [PhysicalMemoryMap(SYSTEM_RAM, 0, 0x1fff)])
    ensures Layout([PhysicalMemoryMap(SYSTEM_RAM, 0, 0x1fff)], FRAME_SIZE)
    ensures !Drawable([PhysicalMemoryMap(SYSTEM_RAM, 0, 0x1fff)], order, Dots(segments))
  {
    var m := PhysicalMemoryMap(SYSTEM_RAM, 0, 0x1fff);
    RangeAt([m], FRAME_SIZE, 0);
    DotInSegments(segments, 0, 0);
    assert !OnCurve([m], order, 0);
  }

  /** One map of a little more than 4 TiB: the side of the image does not fit in 16 bits. */
  lemma {:induction false} LargeMachineHasNoImage()
    ensures PfnCount([PhysicalMemoryMap(SYSTEM_RAM, 0x1000, 0x400_0000_1fff)]) == 0x4000_0001
  {
    assert PfnCount([PhysicalMemoryMap(SYSTEM_RAM, 0x1000, 0x400_0000_1fff)][..0]) == 0;
  }
}
