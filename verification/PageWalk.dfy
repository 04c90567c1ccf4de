/** The walk over the memory maps of one process, and how its RSS relates to the frames it finds. */
module PageWalk {
  import opened Wrappers
  import opened Decimal
  import opened Processes
  import opened Sequences
  import opened ProcessGroups

  datatype PageInfo = MemoryPage(pfn: Pfn) | SwapPage(swapType: nat, offset: nat)

  datatype MMapPath = Vsys(key: int) | Path(file: string) | OtherPath

  datatype MemoryMap = MemoryMap(low: nat, high: nat, inode: nat, pathname: MMapPath, pages: seq<PageInfo>)

  /** What the loop over the maps accumulates. */
  datatype Usage = Usage(
    pfns: set<Pfn>,
    anonPfns: set<Pfn>,
    swapPages: set<SwapPage>,
    anonSwapPages: set<SwapPage>,
    referencedShms: set<Shm>,
    unknownShm: set<ShmReference>,
    rss: nat,
    vsz: nat)

  /** Addresses of each map are in order, so that no size underflows. */
  predicate Ordered(maps: seq<MemoryMap>) {
    forall m <- maps :: m.low <= m.high
  }

  // ----- what the loop is to find

  predicate IsShm(m: MemoryMap) {
    m.pathname.Vsys?
  }

  predicate IsAnonymous(m: MemoryMap) {
    m.pathname.OtherPath?
  }

  function PagesOf(m: MemoryMap): seq<PageInfo> {
    if IsShm(m) then [] else m.pages
  }

  function AnonPagesOf(m: MemoryMap): seq<PageInfo> {
    if IsAnonymous(m) then m.pages else []
  }

  /** The pages of the maps, map after map. */
  function Entries(maps: seq<MemoryMap>, field: MemoryMap -> seq<PageInfo>): seq<PageInfo> {
    if maps == [] then [] else Entries(maps[..|maps| - 1], field) + field(maps[|maps| - 1])
  }

  function FramesIn(pages: seq<PageInfo>): set<Pfn> {
    set page | page in pages && page.MemoryPage? :: page.pfn
  }

  function SwapIn(pages: seq<PageInfo>): set<SwapPage> {
    set page | page in pages && page.SwapPage? :: (page.swapType, page.offset)
  }

  /** The frames the page table entries point to, entry by entry, frame 0 left out. */
  function Resident(pages: seq<PageInfo>): seq<Pfn> {
    if pages == [] then []
    else
      var page := pages[|pages| - 1];
      Resident(pages[..|pages| - 1]) + if page.MemoryPage? && page.pfn != 0 then [page.pfn] else []
  }

  /** One page for each of these entries. */
  function RssIn(pages: seq<PageInfo>, pageSize: nat): nat {
    if pages == [] then 0
    else
      var page := pages[|pages| - 1];
      RssIn(pages[..|pages| - 1], pageSize) + if page.MemoryPage? && page.pfn != 0 then pageSize else 0
  }

  function Mapped(maps: seq<MemoryMap>): nat
    requires Ordered(maps)
  {
    if maps == [] then 0 else Mapped(maps[..|maps| - 1]) + (maps[|maps| - 1].high - maps[|maps| - 1].low)
  }

  predicate Matches(shm: Shm, m: MemoryMap) {
    m.pathname.Vsys? && shm.key == m.pathname.key && shm.shmid == m.inode
  }

  function FirstShm(shms: seq<Shm>, m: MemoryMap): (r: Option<Shm>)
    ensures r.Some? ==> r.value in shms && Matches(r.value, m)
    ensures r.None? ==> forall s <- shms :: !Matches(s, m)
  {
    if shms == [] then None else if Matches(shms[0], m) then Some(shms[0]) else FirstShm(shms[1..], m)
  }

  function Referenced(maps: seq<MemoryMap>, shms: seq<Shm>): set<Shm> {
    set m | m in maps && FirstShm(shms, m).Some? :: FirstShm(shms, m).value
  }

  function Unknown(maps: seq<MemoryMap>, shms: seq<Shm>): set<ShmReference> {
    set m | m in maps && IsShm(m) && FirstShm(shms, m).None? :: ShmReference(m.pathname.key, m.inode)
  }

  function UsageOf(maps: seq<MemoryMap>, shms: seq<Shm>, pageSize: nat): Usage
    requires Ordered(maps)
  {
    var all, anonymous := Entries(maps, PagesOf), Entries(maps, AnonPagesOf);
    Usage(FramesIn(all), FramesIn(anonymous), SwapIn(all), SwapIn(anonymous),
          Referenced(maps, shms), Unknown(maps, shms), RssIn(all, pageSize), Mapped(maps))
  }

  // ----- one page, one map

  function FrameIn(page: PageInfo): set<Pfn> {
    if page.MemoryPage? then {page.pfn} else {}
  }

  function SlotIn(page: PageInfo): set<SwapPage> {
    if page.SwapPage? then {(page.swapType, page.offset)} else {}
  }

  lemma {:induction false} PagesPush(pages: seq<PageInfo>, page: PageInfo, pageSize: nat)
    ensures FramesIn(pages + [page]) == FramesIn(pages) + FrameIn(page)
    ensures SwapIn(pages + [page]) == SwapIn(pages) + SlotIn(page)
    ensures RssIn(pages + [page], pageSize)
         == RssIn(pages, pageSize) + if page.MemoryPage? && page.pfn != 0 then pageSize else 0
  {
    assert (pages + [page])[..|pages|] == pages;
  }

  lemma {:induction false} PagesJoin(a: seq<PageInfo>, b: seq<PageInfo>, pageSize: nat)
    ensures FramesIn(a + b) == FramesIn(a) + FramesIn(b)
    ensures SwapIn(a + b) == SwapIn(a) + SwapIn(b)
    ensures RssIn(a + b, pageSize) == RssIn(a, pageSize) + RssIn(b, pageSize)
  {
    if b == [] {
      assert a + b == a;
    } else {
      var front, last := b[..|b| - 1], b[|b| - 1];
      assert a + b == (a + front) + [last] && b == front + [last];
      PagesPush(a + front, last, pageSize);
      PagesPush(front, last, pageSize);
      PagesJoin(a, front, pageSize);
    }
  }

  method AddFilePages(u: Usage, pages: seq<PageInfo>, pageSize: nat) returns (r: Usage)
    ensures r == u.(pfns := u.pfns + FramesIn(pages), swapPages := u.swapPages + SwapIn(pages),
                    rss := u.rss + RssIn(pages, pageSize))
  {
    var pfns, swapPages, rss := u.pfns, u.swapPages, u.rss;
    for i := 0 to |pages|
      invariant pfns == u.pfns + FramesIn(pages[..i])
      invariant swapPages == u.swapPages + SwapIn(pages[..i])
      invariant rss == u.rss + RssIn(pages[..i], pageSize)
    {
      assert pages[..i + 1] == pages[..i] + [pages[i]];
      PagesPush(pages[..i], pages[i], pageSize);
      match pages[i] {
        case MemoryPage(pfn) =>
          if pfn != 0 {
            rss := rss + pageSize;
          }
          pfns := pfns + {pfn};
        case SwapPage(swapType, offset) =>
          swapPages := swapPages + {(swapType, offset)};
      }
    }
    assert pages[..|pages|] == pages;
    r := u.(pfns := pfns, swapPages := swapPages, rss := rss);
  }

  method AddAnonymousPages(u: Usage, pages: seq<PageInfo>, pageSize: nat) returns (r: Usage)
    ensures r == u.(pfns := u.pfns + FramesIn(pages), anonPfns := u.anonPfns + FramesIn(pages),
                    swapPages := u.swapPages + SwapIn(pages), anonSwapPages := u.anonSwapPages + SwapIn(pages),
                    rss := u.rss + RssIn(pages, pageSize))
  {
    var pfns, anonPfns, swapPages, anonSwapPages, rss := u.pfns, u.anonPfns, u.swapPages, u.anonSwapPages, u.rss;
    for i := 0 to |pages|
      invariant pfns == u.pfns + FramesIn(pages[..i]) && anonPfns == u.anonPfns + FramesIn(pages[..i])
      invariant swapPages == u.swapPages + SwapIn(pages[..i])
      invariant anonSwapPages == u.anonSwapPages + SwapIn(pages[..i])
      invariant rss == u.rss + RssIn(pages[..i], pageSize)
    {
      assert pages[..i + 1] == pages[..i] + [pages[i]];
      PagesPush(pages[..i], pages[i], pageSize);
      match pages[i] {
        case MemoryPage(pfn) =>
          if pfn != 0 {
            rss := rss + pageSize;
          }
          anonPfns := anonPfns + {pfn};
          pfns := pfns + {pfn};
        case SwapPage(swapType, offset) =>
          anonSwapPages := anonSwapPages + {(swapType, offset)};
          swapPages := swapPages + {(swapType, offset)};
      }
    }
    assert pages[..|pages|] == pages;
    r := u.(pfns := pfns, anonPfns := anonPfns, swapPages := swapPages, anonSwapPages := anonSwapPages, rss := rss);
  }

  /** The search among the known shared memory segments, in the order they happen to come. */
  method AddShm(u: Usage, m: MemoryMap, shms: seq<Shm>) returns (r: Usage)
    requires m.pathname.Vsys?
    ensures r == match FirstShm(shms, m)
                 case Some(s) => u.(referencedShms := u.referencedShms + {s})
                 case None => u.(unknownShm := u.unknownShm + {ShmReference(m.pathname.key, m.inode)})
  {
    assert shms[0..] == shms;
    for i := 0 to |shms|
      invariant FirstShm(shms, m) == FirstShm(shms[i..], m)
    {
      if shms[i].key == m.pathname.key && shms[i].shmid == m.inode {
        return u.(referencedShms := u.referencedShms + {shms[i]});
      }
      assert shms[i..][1..] == shms[i + 1..];
    }
    r := u.(unknownShm := u.unknownShm + {ShmReference(m.pathname.key, m.inode)});
  }

  /** The usage with one more map. */
  function Added(u: Usage, m: MemoryMap, shms: seq<Shm>, pageSize: nat): Usage
    requires m.low <= m.high
  {
    var all, anonymous := PagesOf(m), AnonPagesOf(m);
    Usage(
      u.pfns + FramesIn(all), u.anonPfns + FramesIn(anonymous),
      u.swapPages + SwapIn(all), u.anonSwapPages + SwapIn(anonymous),
      u.referencedShms + Referenced([m], shms), u.unknownShm + Unknown([m], shms),
      u.rss + RssIn(all, pageSize), u.vsz + (m.high - m.low))
  }

  lemma {:induction false} UsagePush(maps: seq<MemoryMap>, m: MemoryMap, shms: seq<Shm>, pageSize: nat)
    requires Ordered(maps + [m])
    ensures Ordered(maps) && m.low <= m.high
    ensures UsageOf(maps + [m], shms, pageSize) == Added(UsageOf(maps, shms, pageSize), m, shms, pageSize)
  {
    assert m in maps + [m] && forall m' <- maps :: m' in maps + [m];
    assert (maps + [m])[..|maps|] == maps;
    PagesJoin(Entries(maps, PagesOf), PagesOf(m), pageSize);
    PagesJoin(Entries(maps, AnonPagesOf), AnonPagesOf(m), pageSize);
    assert Referenced(maps + [m], shms) == Referenced(maps, shms) + Referenced([m], shms);
    assert Unknown(maps + [m], shms) == Unknown(maps, shms) + Unknown([m], shms);
  }

  /** The body of the loop over the maps. */
  method AddMap(u: Usage, m: MemoryMap, shms: seq<Shm>, pageSize: nat) returns (r: Usage)
    requires m.low <= m.high
    ensures r == Added(u, m, shms, pageSize)
  {
    r := u.(vsz := u.vsz + (m.high - m.low));
    match m.pathname {
      case Vsys(_) => r := AddShm(r, m, shms);
      case Path(_) => r := AddFilePages(r, m.pages, pageSize);
      case OtherPath => r := AddAnonymousPages(r, m.pages, pageSize);
    }
  }

  method WalkMaps(maps: seq<MemoryMap>, shms: seq<Shm>, pageSize: nat) returns (u: Usage)
    requires Ordered(maps)
    ensures u == UsageOf(maps, shms, pageSize)
  {
    u := Usage({}, {}, {}, {}, {}, {}, 0, 0);
    for i := 0 to |maps|
      invariant u == UsageOf(maps[..i], shms, pageSize)
    {
      assert maps[..i + 1] == maps[..i] + [maps[i]];
      UsagePush(maps[..i], maps[i], shms, pageSize);
      u := AddMap(u, maps[i], shms, pageSize);
    }
    assert maps[..|maps|] == maps;
  }

  /** The page table size is missing for some processes. */
  datatype Status = Status(euid: u32, vmpte: Option<nat>)

  /** What the files of a process give, in the order they are read; each read can fail, the status is read twice. */
  datatype Reads = Reads(
    emptyCmdline: Option<bool>,
    status: Option<Status>,
    fds: Option<nat>,
    maps: Option<seq<MemoryMap>>,
    lastStatus: Option<Status>,
    environ: Option<map<string, string>>)

  datatype Outcome = Info(info: ProcessInfo) | Failed | Panicked

  /** A kernel process has an empty command line. A missing page table size is not handled: the source expects it. */
  method GetProcessInfo(process: Process, files: Reads, shms: seq<Shm>, pageSize: nat) returns (r: Outcome)
    requires files.maps.Some? ==> Ordered(files.maps.value)
    ensures r.Info? <==>
      && files.emptyCmdline == Some(false)
      && files.status.Some? && files.status.value.vmpte.Some?
      && files.fds.Some? && files.maps.Some? && files.lastStatus.Some? && files.environ.Some?
    ensures r.Panicked?
       <==> files.emptyCmdline == Some(false) && files.status.Some? && files.status.value.vmpte.None?
    ensures r.Info? ==>
      var u := UsageOf(files.maps.value, shms, pageSize);
      && r.info.process == process
      && r.info.uid == files.lastStatus.value.euid && r.info.environ == files.environ.value
      && r.info.pfns == u.pfns && r.info.anonPfns == u.anonPfns
      && r.info.swapPages == u.swapPages && r.info.anonSwapPages == u.anonSwapPages
      && r.info.referencedShms == u.referencedShms && r.info.unknownShm == u.unknownShm
      && r.info.rss == u.rss && r.info.vsz == u.vsz
      && r.info.pte == files.status.value.vmpte.value && r.info.fds == files.fds.value
  {
    if files.emptyCmdline != Some(false) || files.status.None? {
      return Failed;
    }
    if files.status.value.vmpte.None? {
      return Panicked;
    }
    if files.fds.None? || files.maps.None? {
      return Failed;
    }
    var u := WalkMaps(files.maps.value, shms, pageSize);
    if files.lastStatus.None? || files.environ.None? {
      return Failed;
    }
    return Info(ProcessInfo(
      process, files.lastStatus.value.euid, files.environ.value, u.pfns, u.anonPfns, u.swapPages, u.anonSwapPages,
      u.referencedShms, u.rss, u.vsz, files.status.value.vmpte.value, files.fds.value, u.unknownShm));
  }

  // ----- what a walk finds, entry by entry

  lemma {:induction false} EntryIff(maps: seq<MemoryMap>, field: MemoryMap -> seq<PageInfo>, page: PageInfo)
    ensures page in Entries(maps, field) <==> exists m <- maps :: page in field(m)
  {
    if maps != [] {
      var front, last := maps[..|maps| - 1], maps[|maps| - 1];
      EntryIff(front, field, page);
      assert maps == front + [last];
    }
  }

  /** A frame is one of the process when a map other than a segment enters it; anonymous when a map of no file does. */
  lemma {:induction false} FrameIff(maps: seq<MemoryMap>, shms: seq<Shm>, pageSize: nat, p: Pfn)
    requires Ordered(maps)
    ensures var u := UsageOf(maps, shms, pageSize);
            && (p in u.pfns <==> exists m <- maps :: !m.pathname.Vsys? && MemoryPage(p) in m.pages)
            && (p in u.anonPfns <==> exists m <- maps :: m.pathname.OtherPath? && MemoryPage(p) in m.pages)
  {
    EntryIff(maps, PagesOf, MemoryPage(p));
    EntryIff(maps, AnonPagesOf, MemoryPage(p));
  }

  lemma {:induction false} SlotIff(maps: seq<MemoryMap>, shms: seq<Shm>, pageSize: nat, swapType: nat, offset: nat)
    requires Ordered(maps)
    ensures var u := UsageOf(maps, shms, pageSize);
            && ((swapType, offset) in u.swapPages
                <==> exists m <- maps :: !m.pathname.Vsys? && PageInfo.SwapPage(swapType, offset) in m.pages)
            && ((swapType, offset) in u.anonSwapPages
                <==> exists m <- maps :: m.pathname.OtherPath? && PageInfo.SwapPage(swapType, offset) in m.pages)
  {
    EntryIff(maps, PagesOf, PageInfo.SwapPage(swapType, offset));
    EntryIff(maps, AnonPagesOf, PageInfo.SwapPage(swapType, offset));
  }

  lemma {:induction false} FirstShmAt(shms: seq<Shm>, m: MemoryMap) returns (i: nat)
    ensures i <= |shms| && forall j | 0 <= j < i :: !Matches(shms[j], m)
    ensures FirstShm(shms, m) == if i < |shms| then Some(shms[i]) else None
    ensures i < |shms| ==> Matches(shms[i], m)
  {
    if shms == [] || Matches(shms[0], m) {
      i := 0;
    } else {
      i := FirstShmAt(shms[1..], m);
      i := i + 1;
    }
  }

  /** Shared segments are told apart by key and identifier, an unknown one only when no known one has both. */
  lemma {:induction false} SegmentIff(maps: seq<MemoryMap>, shms: seq<Shm>, pageSize: nat, key: int, id: nat)
    requires Ordered(maps)
    ensures var u := UsageOf(maps, shms, pageSize);
            && (ShmReference(key, id) in u.unknownShm
                <==> (exists m <- maps :: m.pathname == Vsys(key) && m.inode == id)
                     && forall s <- shms :: !(s.key == key && s.shmid == id))
            && ((exists s <- u.referencedShms :: s.key == key && s.shmid == id)
                <==> (exists m <- maps :: m.pathname == Vsys(key) && m.inode == id)
                     && exists s <- shms :: s.key == key && s.shmid == id)
            && forall s <- u.referencedShms :: s in shms
  {
    var u := UsageOf(maps, shms, pageSize);
    forall m <- maps | m.pathname == Vsys(key) && m.inode == id
      ensures FirstShm(shms, m).Some? ==> FirstShm(shms, m).value in u.referencedShms
      ensures FirstShm(shms, m).None? ==> ShmReference(key, id) in u.unknownShm
    {
    }
  }

  /** The positions of the entries with a frame other than frame 0. */
  function FramePositions(pages: seq<PageInfo>): set<nat> {
    set j: nat | j < |pages| && pages[j].MemoryPage? && pages[j].pfn != 0
  }

  lemma {:induction false} ResidentCount(pages: seq<PageInfo>)
    ensures |Resident(pages)| == |FramePositions(pages)|
  {
    if pages == [] {
      assert FramePositions(pages) == {};
    } else {
      var last := |pages| - 1;
      ResidentCount(pages[..last]);
      assert FramePositions(pages) == FramePositions(pages[..last])
        + if pages[last].MemoryPage? && pages[last].pfn != 0 then {last} else {};
    }
  }

  /** The RSS that a walk counts for one map. */
  function MapRss(m: MemoryMap, pageSize: nat): nat {
    if m.pathname.Vsys? then 0 else pageSize * |FramePositions(m.pages)|
  }

  /** A map that is not a segment adds one page for each of its entries with a frame, and its size. */
  lemma {:induction false} RssAndSize(maps: seq<MemoryMap>, m: MemoryMap, shms: seq<Shm>, pageSize: nat)
    requires Ordered(maps + [m])
    ensures Ordered(maps) && m.low <= m.high && Ordered([])
    ensures UsageOf([], shms, pageSize).rss == UsageOf([], shms, pageSize).vsz == 0
    ensures var before, u := UsageOf(maps, shms, pageSize), UsageOf(maps + [m], shms, pageSize);
            && u.rss == before.rss + MapRss(m, pageSize)
            && u.vsz == before.vsz + (m.high - m.low)
  {
    UsagePush(maps, m, shms, pageSize);
    RssIsCount(m.pages, pageSize);
    ResidentCount(m.pages);
  }

  // ----- RSS against frames

  ghost function Members<T>(s: seq<T>): set<T> {
    set x | x in s
  }

  lemma {:induction false} MembersAtMostLength<T>(s: seq<T>)
    ensures |Members(s)| <= |s|
    ensures |Members(s)| == |s| <==> Distinct(s)
  {
    if s != [] {
      var front, last := s[..|s| - 1], s[|s| - 1];
      MembersAtMostLength(front);
      assert s == front + [last];
      assert Members(s) == Members(front) + {last};
      if last in front {
        var i :| 0 <= i < |front| && front[i] == last;
        assert !Distinct(s) by { assert s[i] == s[|s| - 1]; }
      }
    }
  }

  lemma {:induction false} ResidentMembers(pages: seq<PageInfo>, p: Pfn)
    ensures p in Resident(pages) <==> p in FramesIn(pages) && p != 0
  {
    if pages != [] {
      var front, last := pages[..|pages| - 1], pages[|pages| - 1];
      ResidentMembers(front, p);
      assert pages == front + [last];
      PagesPush(front, last, 0);
    }
  }

  lemma {:induction false} RssIsCount(pages: seq<PageInfo>, pageSize: nat)
    ensures RssIn(pages, pageSize) == pageSize * |Resident(pages)|
  {
    if pages != [] {
      var front := pages[..|pages| - 1];
      RssIsCount(front, pageSize);
      assert pageSize * (|Resident(front)| + 1) == pageSize * |Resident(front)| + pageSize;
    }
  }

  lemma {:induction false} Scale(k: nat, a: nat, b: nat)
    requires k > 0 && a <= b
    ensures k * a <= k * b
    ensures k * a == k * b <==> a == b
  {
    assert k * b == k * a + k * (b - a);
  }

  lemma {:induction false} FramesAtMostEntries(pages: seq<PageInfo>)
    ensures |FramesIn(pages) - {0}| <= |Resident(pages)|
    ensures |FramesIn(pages) - {0}| == |Resident(pages)| <==> Distinct(Resident(pages))
  {
    forall p ensures p in Resident(pages) <==> p in FramesIn(pages) - {0} {
      ResidentMembers(pages, p);
    }
    assert Members(Resident(pages)) == FramesIn(pages) - {0};
    MembersAtMostLength(Resident(pages));
  }

  /**
   * The RSS counts page table entries, the report counts frames: the frames are at most the RSS,
   * and exactly the RSS when no frame is entered twice. Frame 0 is in the set but not in the RSS.
   */
  lemma {:induction false} FramesAtMostRss(maps: seq<MemoryMap>, shms: seq<Shm>, pageSize: nat)
    requires pageSize > 0 && Ordered(maps)
    ensures var u := UsageOf(maps, shms, pageSize);
            && pageSize * |u.pfns - {0}| <= u.rss
            && (pageSize * |u.pfns - {0}| == u.rss <==> Distinct(Resident(Entries(maps, PagesOf))))
  {
    var pages := Entries(maps, PagesOf);
    FramesAtMostEntries(pages);
    RssIsCount(pages, pageSize);
    Scale(pageSize, |FramesIn(pages) - {0}|, |Resident(pages)|);
  }

  /** Anonymous pages are pages, and every other page is one of a file. */
  lemma {:induction false} AnonymousIsPart(maps: seq<MemoryMap>, shms: seq<Shm>, pageSize: nat)
    requires Ordered(maps)
    ensures var u := UsageOf(maps, shms, pageSize);
            && u.anonPfns <= u.pfns && u.anonSwapPages <= u.swapPages
            && (forall p <- u.pfns - u.anonPfns :: exists m <- maps :: m.pathname.Path? && MemoryPage(p) in m.pages)
  {
    if maps != [] {
      var front, last := maps[..|maps| - 1], maps[|maps| - 1];
      AnonymousIsPart(front, shms, pageSize);
      assert maps == front + [last];
      UsagePush(front, last, shms, pageSize);
      var u, before := UsageOf(maps, shms, pageSize), UsageOf(front, shms, pageSize);
      forall p <- u.pfns - u.anonPfns ensures exists m <- maps :: m.pathname.Path? && MemoryPage(p) in m.pages {
        if p in before.pfns {
          var m :| m in front && m.pathname.Path? && MemoryPage(p) in m.pages;
          assert m in maps;
        } else {
          assert last in maps && MemoryPage(p) in last.pages;
        }
      }
    }
  }

  /** Shared memory identifiers tell the segments apart. */
  ghost predicate Identified(shms: seq<Shm>) {
    forall a <- shms, b <- shms :: a.key == b.key && a.shmid == b.shmid ==> a == b
  }

  /** Then the order in which the known segments are searched has no influence. */
  lemma {:induction false} ShmOrderIrrelevant(maps: seq<MemoryMap>, shms: seq<Shm>, others: seq<Shm>, pageSize: nat)
    requires Ordered(maps)
    requires Identified(shms) && forall s :: s in shms <==> s in others
    ensures UsageOf(maps, shms, pageSize) == UsageOf(maps, others, pageSize)
  {
    forall m <- maps ensures FirstShm(shms, m) == FirstShm(others, m) {
      var a, b := FirstShm(shms, m), FirstShm(others, m);
      assert a.Some? <==> b.Some?;
    }
    assert Referenced(maps, shms) == Referenced(maps, others);
    assert Unknown(maps, shms) == Unknown(maps, others);
  }

  // ----- RSS of a group against the RSS of its processes

  function RssOf(p: ProcessInfo): nat { p.rss }

  /** The process information comes from a walk. */
  ghost predicate Walked(p: ProcessInfo, pageSize: nat) {
    exists maps: seq<MemoryMap>, shms: seq<Shm> ::
      Ordered(maps) && HasUsage(p, maps, shms, pageSize)
  }

  ghost predicate HasUsage(p: ProcessInfo, maps: seq<MemoryMap>, shms: seq<Shm>, pageSize: nat)
    requires Ordered(maps)
  {
    var u := UsageOf(maps, shms, pageSize);
    p.pfns == u.pfns && p.rss == u.rss
  }

  /** The frames a group reports are at most what its processes have together, frame 0 apart. */
  lemma {:induction false} GroupRssBound(processes: seq<ProcessInfo>, name: string, pageSize: nat)
    requires pageSize > 0 && forall p <- processes :: Walked(p, pageSize)
    ensures pageSize * |GroupOf(processes, name).pfns - {0}| <= Total(processes, RssOf)
  {
    if processes == [] {
      assert GroupOf(processes, name).pfns == {};
    } else {
      var front, p := processes[..|processes| - 1], processes[|processes| - 1];
      assert processes == front + [p] && p in processes && forall q <- front :: q in processes;
      GroupRssBound(front, name, pageSize);
      AllPush(front, p, PfnsOf);
      var maps: seq<MemoryMap>, shms: seq<Shm> :| Ordered(maps) && HasUsage(p, maps, shms, pageSize);
      FramesAtMostRss(maps, shms, pageSize);
      JoinedFrames(GroupOf(front, name).pfns, p.pfns, pageSize);
    }
  }

  lemma {:induction false} JoinedFrames(a: set<Pfn>, b: set<Pfn>, pageSize: nat)
    ensures pageSize * |a + b - {0}| <= pageSize * |a - {0}| + pageSize * |b - {0}|
  {
    var extra := b - {0} - (a - {0});
    assert a + b - {0} == (a - {0}) + extra;
    SubsetSize(extra, b - {0});
    Spread(pageSize, |a + b - {0}|, |a - {0}|, |b - {0}|);
  }

  lemma {:induction false} Spread(k: nat, c: nat, a: nat, b: nat)
    requires c <= a + b
    ensures k * c <= k * a + k * b
  {
    assert k * a + k * b == k * c + k * (a + b - c);
  }
}
