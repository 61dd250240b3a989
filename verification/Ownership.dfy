/** Who owns each physical frame, over every run of heap growth and of mapping and unmapping kernel regions. */
module Ownership {
  import opened Words
  import opened FrameBitmap
  import opened Pmm
  import opened Paging
  import opened PageRanges
  import opened Regions
  import opened Vmm
  import KernelHeap

  const HEAP_PAGE := 0xC0400
  const HEAP_LIMIT := 0xC1400
  const ZERO_PAGE := 0xC0000

  /** Memory, the kernel's regions, and the page where the heap ends. */
  datatype State = State(mem: Mem, regions: seq<Region>, heapEnd: nat)

  /** Pages 0xC0001 to 0xC13FF, which the boot regions cover. */
  predicate BootPage(p: nat) {
    0xC0001 <= p < 0xC1400
  }

  ghost predicate InRegion(rs: seq<Region>, p: nat) {
    exists i :: 0 <= i < |rs| && rs[i].Has(p * 4096)
  }

  /** The pages whose frames belong to someone: the heap below its end, and every region mapped since boot. */
  ghost predicate Managed(s: State, p: nat) {
    if BootPage(p) then HEAP_PAGE <= p < s.heapEnd else InRegion(s.regions, p)
  }

  /** A managed page has a frame, which is neither clear nor a page table. */
  ghost predicate Held(m: Mem, p: nat) {
    p in m.flat && 256 <= m.flat[p] < BITMAP_FRAMES && m.flat[p] !in m.frames.clear && m.flat[p] !in m.tables
  }

  /** The ownership invariant. */
  ghost predicate Owns(s: State, kend: nat) {
    && Sane(s.mem) && ListInv(s.regions) && Guarded(s.regions, kend)
    && HEAP_PAGE <= s.heapEnd <= HEAP_LIMIT
    && (forall p: nat :: Managed(s, p) ==> Held(s.mem, p))
    && (forall p: nat, q: nat :: Managed(s, p) && Managed(s, q) && p != q ==> s.mem.flat[p] != s.mem.flat[q])
    && (forall p: nat :: p in s.mem.flat ==> Managed(s, p) || BootPage(p) || p == ZERO_PAGE)
  }

  /** What `vmm_map_region` has checked about a range before it maps anything. */
  ghost predicate Accepted(s: State, r: Region) {
    r.Good() && forall i :: 0 <= i < |s.regions| ==> !Clashes(s.regions[i], r.base, r.size)
  }

  /** The outcomes of the operations, as they show in the state. */
  datatype Event =
    | RegionMapped(r: Region, n: nat)
    | MapRolledBack(r: Region, n: nat)
    | RegionUnmapped(vaddr: nat)
    | HeapGrown(n: nat)
    | HeapStuck(n: nat)
    | HeapLostFrame(g: KernelHeap.Growth)

  ghost predicate Happens(s: State, e: Event, s': State) {
    match e
    case RegionMapped(r, n) =>
      && Accepted(s, r) && 4096 * n == r.size && Grown(s.mem, s'.mem, r.base / 4096, n)
      && s'.regions == Insert(s.regions, r) && s'.heapEnd == s.heapEnd
    case MapRolledBack(r, n) =>
      && Accepted(s, r) && 4096 * n <= r.size && Undone(s.mem, s'.mem, r.base / 4096, n)
      && s'.regions == s.regions && s'.heapEnd == s.heapEnd
    case RegionUnmapped(vaddr) =>
      && vaddr != 0xC000_1000 && Unmappable(s.regions, vaddr)
      && var k := FirstAt(s.regions, vaddr);
         && Freed(s.mem, s'.mem, s.regions[k].base / 4096, s.regions[k].size / 4096)
         && s'.regions == Without(s.regions, k) && s'.heapEnd == s.heapEnd
    case HeapGrown(n) =>
      && s.heapEnd + n <= HEAP_LIMIT && Grown(s.mem, s'.mem, s.heapEnd, n)
      && s'.regions == s.regions && s'.heapEnd == s.heapEnd + n
    case HeapStuck(n) =>
      && s.heapEnd + n <= HEAP_LIMIT && Grown(s.mem, s'.mem, s.heapEnd, n)
      && s'.regions == s.regions && s'.heapEnd == s.heapEnd
    case HeapLostFrame(g) => TableMissing(s, g, s') && s'.heapEnd == s.heapEnd
  }

  /** The heap was to grow, `g.n` pages did, and the frame for the next was lost because its table got none. */
  ghost predicate TableMissing(s: State, g: KernelHeap.Growth, s': State) {
    && s.heapEnd + g.n < HEAP_LIMIT && Grown(s.mem, g.mid, s.heapEnd, g.n)
    && KernelHeap.NoTableFor(g.mid, s.heapEnd + g.n) && s'.mem == FrameTaken(g.mid) && s'.regions == s.regions
  }

  /**
   What an allocation does to memory, as `kmalloc` reports it, is nothing or one of the heap's events; or the heap has
   grown although its last page has no table, unless `kmalloc` faulted there; or a table lies too high.
   */
  lemma AllocationIsEvent(m: Mem, m': Mem, rs: seq<Region>, r: KernelHeap.Expansion, end: nat, bytes: nat, g: KernelHeap.Growth)
    requires KernelHeap.PagesMoved(m, m', r, end, bytes, g) && end % 4096 == 0 && bytes % 4096 == 0
    requires r.NotNeeded? || r.Full? || end + bytes <= 0xC140_0000
    ensures var s, same := State(m, rs, end / 4096), State(m', rs, end / 4096);
            match r
            case NotNeeded => m' == m
            case Full => m' == m
            case Grew => Happens(s, HeapGrown(g.n), State(m', rs, (end + bytes) / 4096))
            case OutOfFrames(_) => Happens(s, HeapStuck(g.n), same)
            case TableMissing(false) => Happens(s, HeapLostFrame(g), same)
            case TableMissing(true) => TableMissing(s, g, State(m', rs, (end + bytes) / 4096)) && (end + bytes) / 4096 == s.heapEnd + g.n + 1
            case Stopped => RoundResult(g.mid, s.heapEnd + g.n) == TableTooHigh
  {
    if !r.NotNeeded? && !r.Full? {
      assert 4096 * g.n <= bytes && (end + bytes) / 4096 == end / 4096 + bytes / 4096;
    }
  }

  /** What `vmm_map_region` did is the event of its outcome, or nothing; or it stopped for want of a table. */
  lemma MapIsEvent(m: Mem, mid: Mem, m': Mem, rs: seq<Region>, rs': seq<Region>, heapEnd: nat, used: nat,
                   region: Region, r: MapResult, done: nat)
    requires MapDid(m, mid, m', rs, rs', used, region, r, done) && region.End() < TWO32
    ensures var s, s' := State(m, rs, heapEnd), State(m', rs', heapEnd);
            match r
            case Done => Happens(s, RegionMapped(region, done), s')
            case RolledBack => Happens(s, MapRolledBack(region, done), s')
            case Refused => s' == s
            case Halted => EndsAfter(m, region.base / 4096, done, NoTableFrame)
            case Stopped => EndsAfter(m, region.base / 4096, done, TableTooHigh)
  {
  }

  /** What `vmm_unmap_region` did is the event of a region unmapped, or nothing. */
  lemma UnmapIsEvent(m: Mem, m': Mem, rs: seq<Region>, rs': seq<Region>, heapEnd: nat, vaddr: nat, ok: bool)
    requires UnmapDid(m, m', rs, rs', vaddr, ok) && vaddr != 0xC000_1000
    ensures if ok then Happens(State(m, rs, heapEnd), RegionUnmapped(vaddr), State(m', rs', heapEnd)) else m' == m && rs' == rs
  {
  }

  /** An aligned region holds whole pages. */
  lemma RegionPages(r: Region, p: nat)
    requires r.Good()
    ensures r.Has(p * 4096) <==> r.base / 4096 <= p < r.base / 4096 + r.size / 4096
  {
  }

  /** No page of an accepted range is managed or a boot page. */
  lemma AcceptedIsFree(s: State, kend: nat, r: Region, p: nat)
    requires Owns(s, kend) && Accepted(s, r) && r.base / 4096 <= p < r.base / 4096 + r.size / 4096
    ensures !Managed(s, p) && !BootPage(p) && p < PAGES
  {
    AcceptedRange(s.regions, kend, r);
    RegionPages(r, p);
    forall i | 0 <= i < |s.regions| ensures !s.regions[i].Has(p * 4096) {
      assert r.Apart(s.regions[i]);
    }
  }

  lemma GrownSane(m: Mem, m': Mem, page: nat, n: nat)
    requires Sane(m) && Grown(m, m', page, n) && ClearOfWindow(page, n) && page + n <= PAGES
    ensures Sane(m')
  {
    forall p: nat | InWindow(p) ensures p in m'.flat && m'.flat[p] == p - KERNEL_PAGE {
      assert Lookup(m'.flat, p) == Lookup(m.flat, p);
    }
    forall p | p in m'.flat ensures p < PAGES {
      assert !(page <= p < page + n) ==> Lookup(m'.flat, p) == Lookup(m.flat, p);
    }
  }

  /** A page managed before, outside the range just grown, is held by the same frame after. */
  lemma StillHeld(m: Mem, m': Mem, page: nat, n: nat, p: nat)
    requires Grown(m, m', page, n) && Held(m, p) && !(page <= p < page + n)
    ensures Held(m', p) && m'.flat[p] == m.flat[p]
  {
    assert Lookup(m'.flat, p) == Lookup(m.flat, p);
    var f := m.flat[p];
    assert f in m'.tables ==> f in (m'.tables - m.tables) + Behind(m'.flat, page, n);
  }

  lemma NewlyHeld(m: Mem, m': Mem, page: nat, n: nat, p: nat)
    requires Sane(m) && Grown(m, m', page, n) && page <= p < page + n
    ensures Held(m', p) && m'.flat[p] in m.frames.clear
  {
    BehindMember(m'.flat, page, n, m'.flat[p]);
    assert m'.flat[p] in Behind(m'.flat, page, n);
    assert m'.flat[p] in m.frames.clear - m'.frames.clear;
  }

  /** Growing a range of pages that nobody managed keeps every frame with one owner. */
  lemma GrownOwns(s: State, s': State, kend: nat, page: nat, n: nat)
    requires Owns(s, kend) && Grown(s.mem, s'.mem, page, n) && ClearOfWindow(page, n) && page + n <= PAGES
    requires ListInv(s'.regions) && Guarded(s'.regions, kend) && HEAP_PAGE <= s'.heapEnd <= HEAP_LIMIT
    requires forall p: nat :: page <= p < page + n ==> !Managed(s, p) && (Managed(s', p) || BootPage(p))
    requires forall p: nat :: !(page <= p < page + n) ==> (Managed(s', p) <==> Managed(s, p))
    ensures Owns(s', kend)
  {
    GrownSane(s.mem, s'.mem, page, n);
    forall p: nat | Managed(s', p) ensures Held(s'.mem, p) {
      if page <= p < page + n {
        NewlyHeld(s.mem, s'.mem, page, n, p);
      } else {
        StillHeld(s.mem, s'.mem, page, n, p);
      }
    }
    forall p: nat, q: nat | Managed(s', p) && Managed(s', q) && p < q ensures s'.mem.flat[p] != s'.mem.flat[q] {
      GrownDistinct(s, s', kend, page, n, p, q);
    }
    forall p: nat | p in s'.mem.flat ensures Managed(s', p) || BootPage(p) || p == ZERO_PAGE {
      if !(page <= p < page + n) {
        assert Lookup(s'.mem.flat, p) == Lookup(s.mem.flat, p);
      }
    }
  }

  lemma GrownDistinct(s: State, s': State, kend: nat, page: nat, n: nat, p: nat, q: nat)
    requires Owns(s, kend) && Grown(s.mem, s'.mem, page, n) && p < q
    requires page <= p < page + n || Managed(s, p)
    requires page <= q < page + n || Managed(s, q)
    requires page <= p < page + n ==> !Managed(s, p)
    requires page <= q < page + n ==> !Managed(s, q)
    ensures p in s'.mem.flat && q in s'.mem.flat && s'.mem.flat[p] != s'.mem.flat[q]
  {
    if page <= p < page + n {
      NewlyHeld(s.mem, s'.mem, page, n, p);
    } else {
      StillHeld(s.mem, s'.mem, page, n, p);
    }
    if page <= q < page + n {
      NewlyHeld(s.mem, s'.mem, page, n, q);
    } else {
      StillHeld(s.mem, s'.mem, page, n, q);
    }
  }

  lemma RegionMappedOwns(s: State, s': State, kend: nat, r: Region, n: nat)
    requires Owns(s, kend) && Happens(s, RegionMapped(r, n), s')
    ensures Owns(s', kend)
  {
    AcceptedRange(s.regions, kend, r);
    InsertKeeps(s.regions, r);
    InsertGuarded(s.regions, kend, r);
    var page := r.base / 4096;
    forall p: nat
      ensures InRegion(s'.regions, p) <==> InRegion(s.regions, p) || page <= p < page + n
    {
      RegionPages(r, p);
      InRegionInserted(s.regions, r, p);
    }
    forall p: nat | page <= p < page + n ensures !Managed(s, p) && !BootPage(p) && p < PAGES {
      AcceptedIsFree(s, kend, r, p);
    }
    GrownOwns(s, s', kend, page, n);
  }

  lemma InRegionInserted(rs: seq<Region>, r: Region, p: nat)
    ensures InRegion(Insert(rs, r), p) <==> r.Has(p * 4096) || InRegion(rs, p)
  {
    var k := InsertPos(rs, r.base);
    InsertedSlices(rs, k, r);
    var o := Insert(rs, r);
    if InRegion(rs, p) {
      var i :| 0 <= i < |rs| && rs[i].Has(p * 4096);
      assert o[if i < k then i else i + 1] == rs[i];
    }
    if r.Has(p * 4096) {
      assert o[k] == r;
    }
    if InRegion(o, p) {
      var i :| 0 <= i < |o| && o[i].Has(p * 4096);
      assert i != k ==> o[i] == rs[if i < k then i else i - 1];
    }
  }

  /** A rollback unmaps nothing that was managed and gives back every frame that did not become a table. */
  lemma MapRolledBackOwns(s: State, s': State, kend: nat, r: Region, n: nat)
    requires Owns(s, kend) && Happens(s, MapRolledBack(r, n), s')
    ensures Owns(s', kend)
  {
    var page := r.base / 4096;
    forall p: nat
      ensures Lookup(s'.mem.flat, p) == if page <= p < page + n then None else Lookup(s.mem.flat, p)
      ensures p in s'.mem.flat ==> p in s.mem.flat && !(page <= p < page + n)
      ensures page <= p < page + n ==> !Managed(s, p) && !BootPage(p)
    {
      DropLookup(s.mem.flat, page, n, p);
      if page <= p < page + n {
        AcceptedIsFree(s, kend, r, p);
      }
    }
    RemovedOwns(s, s', kend);
  }

  /** Unmapping a region clears the frames of its pages and of no others. */
  lemma RegionUnmappedOwns(s: State, s': State, kend: nat, vaddr: nat)
    requires Owns(s, kend) && Happens(s, RegionUnmapped(vaddr), s')
    ensures Owns(s', kend)
  {
    var k := FirstAt(s.regions, vaddr);
    var r := s.regions[k];
    var page, n := r.base / 4096, r.size / 4096;
    assert r in s.regions;
    WithoutKeeps(s.regions, k);
    WithoutGuarded(s.regions, kend, k);
    forall p: nat
      ensures Lookup(s'.mem.flat, p) == if page <= p < page + n then None else Lookup(s.mem.flat, p)
      ensures p in s'.mem.flat ==> p in s.mem.flat && !(page <= p < page + n)
      ensures InRegion(s.regions, p) <==> InRegion(s'.regions, p) || page <= p < page + n
      ensures page <= p < page + n ==> !BootPage(p) && Managed(s, p) && !InRegion(s'.regions, p)
    {
      DropLookup(s.mem.flat, page, n, p);
      RegionPages(r, p);
      InRegionWithout(s.regions, k, p);
      if page <= p < page + n {
        MappedNotBoot(s, kend, k, p);
      }
    }
    forall f
      ensures f in s'.mem.frames.clear ==>
                f in s.mem.frames.clear || exists p :: page <= p < page + n && p in s.mem.flat && s.mem.flat[p] == f
    {
      BehindMember(s.mem.flat, page, n, f);
    }
    RemovedOwns(s, s', kend);
  }

  /** The region that `vmm_unmap_region` accepts is not one of the boot regions, so it lies outside their range. */
  lemma MappedNotBoot(s: State, kend: nat, k: nat, p: nat)
    requires Owns(s, kend) && k < |s.regions| && s.regions[k].Has(p * 4096)
    requires s.regions[k].kind > REGION_IDENTITY_MAP && s.regions[k].base != 0xC000_1000
    ensures !BootPage(p) && Managed(s, p)
  {
    var r := s.regions[k];
    forall b | b in BootRegions(kend) ensures r.Apart(b) {
      assert b in s.regions;
      var i :| 0 <= i < |s.regions| && s.regions[i] == b;
      assert i != k;
      if i < k {
        assert s.regions[i].Apart(s.regions[k]);
      } else {
        assert s.regions[k].Apart(s.regions[i]);
      }
    }
    OutsideBoot(s.regions, kend, r);
  }

  lemma InRegionWithout(rs: seq<Region>, k: nat, p: nat)
    requires k < |rs| && Disjoint(rs)
    ensures InRegion(rs, p) <==> rs[k].Has(p * 4096) || InRegion(Without(rs, k), p)
    ensures rs[k].Has(p * 4096) ==> !InRegion(Without(rs, k), p)
  {
    var o := Without(rs, k);
    forall i | 0 <= i < |o|
      ensures o[i].Has(p * 4096) ==> InRegion(rs, p) && !rs[k].Has(p * 4096)
    {
      WithoutAt(rs, k, i);
      assert if i < k then rs[i].Apart(rs[k]) else rs[k].Apart(rs[i + 1]);
    }
    if i :| 0 <= i < |rs| && i != k && rs[i].Has(p * 4096) {
      WithoutAt(rs, k, if i < k then i else i - 1);
      assert o[if i < k then i else i - 1].Has(p * 4096);
    }
  }

  /** Pages are taken out of the map, and only their frames become clear. */
  lemma RemovedOwns(s: State, s': State, kend: nat)
    requires Owns(s, kend) && ListInv(s'.regions) && Guarded(s'.regions, kend) && s'.heapEnd == s.heapEnd
    requires forall p: nat :: Managed(s', p) ==> Managed(s, p) && Lookup(s'.mem.flat, p) == Lookup(s.mem.flat, p)
    requires forall p: nat :: p in s'.mem.flat ==> p in s.mem.flat && (Managed(s, p) ==> Managed(s', p))
    requires forall p: nat :: BootPage(p) ==> Lookup(s'.mem.flat, p) == Lookup(s.mem.flat, p)
    requires forall f :: f in s'.mem.frames.clear ==> 256 <= f < BITMAP_FRAMES
    requires s'.mem.tables !! s'.mem.frames.clear
    requires forall p: nat :: Managed(s', p) ==> s.mem.flat[p] !in s'.mem.frames.clear && s.mem.flat[p] !in s'.mem.tables
    ensures Owns(s', kend)
  {
    forall p: nat | InWindow(p) ensures p in s'.mem.flat && s'.mem.flat[p] == p - KERNEL_PAGE {
      assert BootPage(p) && Lookup(s'.mem.flat, p) == Lookup(s.mem.flat, p);
    }
    forall p: nat | Managed(s', p) ensures Held(s'.mem, p) && s'.mem.flat[p] == s.mem.flat[p] {
      assert Lookup(s'.mem.flat, p) == Lookup(s.mem.flat, p);
    }
  }

  lemma HeapOwns(s: State, s': State, kend: nat, n: nat)
    requires Owns(s, kend) && (Happens(s, HeapGrown(n), s') || Happens(s, HeapStuck(n), s'))
    ensures Owns(s', kend)
  {
    GrownOwns(s, s', kend, s.heapEnd, n);
  }

  lemma FrameTakenOwns(s: State, kend: nat)
    requires Owns(s, kend)
    ensures Owns(s.(mem := FrameTaken(s.mem)), kend)
  {
    var s' := s.(mem := FrameTaken(s.mem));
    forall p: nat ensures Managed(s', p) == Managed(s, p) {
    }
    forall p: nat | Managed(s, p) ensures Held(s'.mem, p) {
      assert Held(s.mem, p);
    }
  }

  /**
   A heap page without a table costs its frame. The ownership invariant survives that if and only if the heap does not
   grow over the page, which it does when the page was the last one asked for and no header falls on it
   (`HeapFaults.Faults`): on a header `kmalloc` has halted the kernel instead.
   */
  lemma TableMissingOwns(s: State, s': State, kend: nat, g: KernelHeap.Growth)
    requires Owns(s, kend) && TableMissing(s, g, s') && (s'.heapEnd == s.heapEnd || s'.heapEnd == s.heapEnd + g.n + 1)
    ensures Owns(s', kend) <==> s'.heapEnd == s.heapEnd
  {
    var mid := State(g.mid, s.regions, s.heapEnd);
    assert Happens(s, HeapStuck(g.n), mid);
    HeapOwns(s, mid, kend, g.n);
    FrameTakenOwns(mid, kend);
    if s'.heapEnd == s.heapEnd {
      assert s' == mid.(mem := FrameTaken(mid.mem));
    } else {
      assert Managed(s', s.heapEnd + g.n) && !Held(s'.mem, s.heapEnd + g.n);
    }
  }

  /** Every event keeps the ownership invariant. */
  lemma EventOwns(s: State, e: Event, s': State, kend: nat)
    requires Owns(s, kend) && Happens(s, e, s')
    ensures Owns(s', kend)
  {
    match e
    case RegionMapped(r, n) => RegionMappedOwns(s, s', kend, r, n);
    case MapRolledBack(r, n) => MapRolledBackOwns(s, s', kend, r, n);
    case RegionUnmapped(vaddr) => RegionUnmappedOwns(s, s', kend, vaddr);
    case HeapGrown(n) => HeapOwns(s, s', kend, n);
    case HeapStuck(n) => HeapOwns(s, s', kend, n);
    case HeapLostFrame(g) => TableMissingOwns(s, s', kend, g);
  }

  ghost predicate IsRun(states: seq<State>, events: seq<Event>) {
    && |states| == |events| + 1
    && forall i :: 0 <= i < |events| ==> Happens(states[i], events[i], states[i + 1])
  }

  /**
   In every state of every run: no clear frame is a page table or behind a managed page, no page table is
   behind a managed page, and no two managed pages share a frame.
   */
  lemma {:induction false} OneOwnerForever(states: seq<State>, events: seq<Event>, kend: nat, n: nat)
    requires IsRun(states, events) && Owns(states[0], kend) && n < |states|
    ensures Owns(states[n], kend)
    ensures states[n].mem.tables !! states[n].mem.frames.clear
    ensures forall p: nat :: Managed(states[n], p) ==>
              && p in states[n].mem.flat
              && states[n].mem.flat[p] !in states[n].mem.frames.clear + states[n].mem.tables
    ensures forall p: nat, q: nat :: Managed(states[n], p) && Managed(states[n], q) && p != q ==>
              states[n].mem.flat[p] != states[n].mem.flat[q]
  {
    if n > 0 {
      OneOwnerForever(states, events, kend, n - 1);
      EventOwns(states[n - 1], events[n - 1], states[n], kend);
    }
  }

  /** After `paging_init` and `vmm_init`, with the heap still empty, the invariant holds. */
  lemma BootOwns(m: Mem, kend: nat)
    requires Sane(m) && m.flat == BootFlat() && 0xC010_0000 < kend <= 0xC040_0000 && kend % 4096 == 0
    ensures Owns(State(m, BootRegions(kend), HEAP_PAGE), kend)
  {
    BootInv(kend);
    var s := State(m, BootRegions(kend), HEAP_PAGE);
    forall p: nat ensures !Managed(s, p) {
      assert !BootPage(p) ==> forall i :: 0 <= i < |s.regions| ==> !s.regions[i].Has(p * 4096);
    }
    forall p: nat | p in m.flat ensures BootPage(p) || p == ZERO_PAGE {
      assert Lookup(BootFlat(), p).Some?;
    }
  }

  /** The only mapped page an accepted range can run into is 0xC0000, the direct map of frame 0. */
  lemma OnlyZeroPageLost(s: State, kend: nat, r: Region, n: nat)
    requires Owns(s, kend) && Accepted(s, r) && 4096 * n <= r.size
    ensures var page := r.base / 4096;
            && Drop(s.mem.flat, page, n) == (if page <= ZERO_PAGE < page + n then s.mem.flat - {ZERO_PAGE} else s.mem.flat)
            && (Drop(s.mem.flat, page, n) == s.mem.flat <==> !(page <= ZERO_PAGE < page + n && ZERO_PAGE in s.mem.flat))
  {
    var page := r.base / 4096;
    var kept := if page <= ZERO_PAGE < page + n then s.mem.flat - {ZERO_PAGE} else s.mem.flat;
    forall p: nat ensures Lookup(Drop(s.mem.flat, page, n), p) == Lookup(kept, p) {
      DropLookup(s.mem.flat, page, n, p);
      if page <= p < page + n {
        AcceptedIsFree(s, kend, r, p);
      }
    }
    LookupDecides(Drop(s.mem.flat, page, n), kept);
  }

  /** A failed map restores regions, translations and bitmap, but for frames kept as page tables and for page 0xC0000. */
  lemma FailedMapRestores(s: State, s': State, kend: nat, r: Region, n: nat)
    requires Owns(s, kend) && Happens(s, MapRolledBack(r, n), s')
    ensures s'.regions == s.regions
    ensures s'.mem.frames.clear == s.mem.frames.clear - (s'.mem.tables - s.mem.tables)
    ensures s'.mem.flat == s.mem.flat <==>
            !(r.base / 4096 <= ZERO_PAGE < r.base / 4096 + n && ZERO_PAGE in s.mem.flat)
  {
    OnlyZeroPageLost(s, kend, r, n);
  }

  /**
   Whether every failed map of `r` restores the translations shows before the call: it does unless `r` takes in page
   0xC0000, which can only be its last, and that page is mapped.
   */
  lemma EveryFailedMapRestores(s: State, kend: nat, r: Region)
    requires Owns(s, kend) && Accepted(s, r)
    ensures r.Has(ZERO_PAGE * 4096) ==> r.End() == (ZERO_PAGE + 1) * 4096
    ensures (forall n, s' :: Happens(s, MapRolledBack(r, n), s') ==> s'.mem.flat == s.mem.flat) <==>
            !(r.Has(ZERO_PAGE * 4096) && ZERO_PAGE in s.mem.flat)
  {
    var page, all := r.base / 4096, r.size / 4096;
    RegionPages(r, ZERO_PAGE);
    if r.Has(ZERO_PAGE * 4096) && page + all > ZERO_PAGE + 1 {
      AcceptedIsFree(s, kend, r, ZERO_PAGE + 1);
      assert false;
    }
    forall n, s' | Happens(s, MapRolledBack(r, n), s')
      ensures s'.mem.flat == s.mem.flat <==> !(page <= ZERO_PAGE < page + n && ZERO_PAGE in s.mem.flat)
    {
      FailedMapRestores(s, s', kend, r, n);
    }
    var end := s.(mem := s.mem.(flat := Drop(s.mem.flat, page, all)));
    assert Happens(s, MapRolledBack(r, all), end);
  }

  /** Unmapping finds the region just mapped at that base exactly when the list did not already begin there. */
  lemma UnmapFindsMapped(s: State, s1: State, r: Region, n: nat)
    requires Sorted(s.regions) && Happens(s, RegionMapped(r, n), s1)
    ensures FirstAt(s1.regions, r.base) == InsertPos(s.regions, r.base) <==> s.regions == [] || s.regions[0].base != r.base
  {
    InsertedIsFound(s.regions, r);
  }

  /** Unmapping undoes mapping on regions, translations and bitmap, but for frames kept as page tables and page 0xC0000. */
  lemma UnmapUndoesMap(s: State, s1: State, s2: State, kend: nat, r: Region, n: nat)
    requires Owns(s, kend) && Happens(s, RegionMapped(r, n), s1) && Happens(s1, RegionUnmapped(r.base), s2)
    requires s.regions == [] || s.regions[0].base != r.base
    ensures s2.regions == s.regions && s2.heapEnd == s.heapEnd
    ensures s2.mem.frames.clear == s.mem.frames.clear - (s2.mem.tables - s.mem.tables)
    ensures s2.mem.flat == s.mem.flat <==>
            !(r.base / 4096 <= ZERO_PAGE < r.base / 4096 + n && ZERO_PAGE in s.mem.flat)
  {
    InsertedIsFound(s.regions, r);
    var page := r.base / 4096;
    WithoutInserted(s.regions, InsertPos(s.regions, r.base), r);
    assert r.size / 4096 == n;
    DropSame(s.mem, s1.mem, page, n);
    OnlyZeroPageLost(s, kend, r, n);
  }

  lemma DropSame(m: Mem, m': Mem, page: nat, n: nat)
    requires Grown(m, m', page, n)
    ensures Drop(m'.flat, page, n) == Drop(m.flat, page, n)
  {
    forall p: nat ensures Lookup(Drop(m'.flat, page, n), p) == Lookup(Drop(m.flat, page, n), p) {
      DropLookup(m'.flat, page, n, p);
      DropLookup(m.flat, page, n, p);
    }
    LookupDecides(Drop(m'.flat, page, n), Drop(m.flat, page, n));
  }

  /** What `UnmapRegion` asks of the region it is about to unmap always holds. */
  lemma UnmapIsSafe(s: State, kend: nat, vaddr: nat)
    requires Owns(s, kend) && vaddr != 0xC000_1000 && Unmappable(s.regions, vaddr)
    ensures var r := s.regions[FirstAt(s.regions, vaddr)];
            Owned(s.mem, r.base / 4096, r.size / 4096) && ClearOfWindow(r.base / 4096, r.size / 4096)
  {
    var k := FirstAt(s.regions, vaddr);
    var r := s.regions[k];
    assert r in s.regions;
    var page, n := r.base / 4096, r.size / 4096;
    forall p: nat | page <= p < page + n ensures Managed(s, p) && Held(s.mem, p) && !InWindow(p) {
      RegionPages(r, p);
      MappedNotBoot(s, kend, k, p);
    }
  }

  // ---- Runs that go wrong ----

  const USER_CODE := 6

  /** One page at 0xC0000000, just below the boot regions. */
  const LOW_PAGE := Region(0xC000_0000, 0x1000, 3, USER_CODE)

  /** After boot the direct map of frame 0 is mapped, and a region may be mapped over it. */
  lemma ZeroPageAccepted(m: Mem, kend: nat)
    requires Sane(m) && m.flat == BootFlat() && 0xC010_0000 < kend <= 0xC040_0000 && kend % 4096 == 0
    ensures var s := State(m, BootRegions(kend), HEAP_PAGE); Owns(s, kend) && Accepted(s, LOW_PAGE) && ZERO_PAGE in s.mem.flat
  {
    BootOwns(m, kend);
    var bs := BootRegions(kend);
    assert Lookup(m.flat, ZERO_PAGE) == Some(0);
    forall i | 0 <= i < |bs| ensures !Clashes(bs[i], LOW_PAGE.base, LOW_PAGE.size) {
      assert bs[i].base >= 0xC000_1000;
    }
  }

  lemma DropOne(flat: map<nat, nat>, page: nat)
    ensures Drop(flat, page, 1) == flat - {page}
  {
    assert Drop(flat, page, 0) == flat;
  }

  /** With the region pool used up, mapping that page fails, and the rollback loses the translation it stood on. */
  lemma RollbackLosesZeroPage(m: Mem, kend: nat)
    requires Sane(m) && m.flat == BootFlat() && 0xC010_0000 < kend <= 0xC040_0000 && kend % 4096 == 0
    ensures var s := State(m, BootRegions(kend), HEAP_PAGE);
            var s' := s.(mem := m.(flat := m.flat - {ZERO_PAGE}));
            Happens(s, MapRolledBack(LOW_PAGE, 1), s') && ZERO_PAGE in s.mem.flat && ZERO_PAGE !in s'.mem.flat
    ensures forall r :: MapEnds(m, ZERO_PAGE, 1, 1, VMM_MAX_REGIONS, r) ==> r == RolledBack
  {
    ZeroPageAccepted(m, kend);
    DropOne(m.flat, ZERO_PAGE);
  }

  /** Memory with frame `f` given to that page. */
  function LowPageMapped(m: Mem, f: nat): Mem {
    m.(frames := Take(m.frames, f), flat := m.flat[ZERO_PAGE := f])
  }

  lemma LowPageGrown(m: Mem, f: nat)
    requires Sane(m) && NextFrame(m.frames) == Some(f) && ZERO_PAGE / 1024 in m.slots
    ensures Grown(m, LowPageMapped(m, f), ZERO_PAGE, 1)
  {
    GrownNothing(m, ZERO_PAGE);
    GrownOneMore(m, m, ZERO_PAGE, 0, f);
  }

  lemma LowPageEntered(kend: nat)
    requires 0xC010_0000 < kend <= 0xC040_0000
    ensures var bs := BootRegions(kend);
            && Insert(bs, LOW_PAGE) == [LOW_PAGE] + bs
            && FirstAt([LOW_PAGE] + bs, LOW_PAGE.base) == 0 && Without([LOW_PAGE] + bs, 0) == bs
  {
    var bs := BootRegions(kend);
    assert InsertPos(bs, LOW_PAGE.base) == 0;
    WithoutSlices([LOW_PAGE] + bs, 0);
  }

  /** Mapping that page and unmapping it again loses the translation it stood on. */
  lemma UnmapLosesZeroPage(m: Mem, kend: nat, f: nat)
    requires Sane(m) && m.flat == BootFlat() && 0xC010_0000 < kend <= 0xC040_0000 && kend % 4096 == 0
    requires NextFrame(m.frames) == Some(f) && ZERO_PAGE / 1024 in m.slots
    ensures var bs, m1 := BootRegions(kend), LowPageMapped(m, f);
            var m2 := m1.(frames := Give(m1.frames, f), flat := m1.flat - {ZERO_PAGE});
            && Happens(State(m, bs, HEAP_PAGE), RegionMapped(LOW_PAGE, 1), State(m1, [LOW_PAGE] + bs, HEAP_PAGE))
            && Happens(State(m1, [LOW_PAGE] + bs, HEAP_PAGE), RegionUnmapped(LOW_PAGE.base), State(m2, bs, HEAP_PAGE))
            && ZERO_PAGE in m.flat && ZERO_PAGE !in m2.flat
  {
    var m1 := LowPageMapped(m, f);
    ZeroPageAccepted(m, kend);
    LowPageGrown(m, f);
    LowPageEntered(kend);
    DropOne(m1.flat, ZERO_PAGE);
    assert Behind(m1.flat, ZERO_PAGE, 0) == {} && Behind(m1.flat, ZERO_PAGE, 1) == {f};
  }

  /** An empty region mapped first hides the region mapped at the same base from unmapping. */
  lemma EmptyRegionHides(kend: nat)
    requires 0xC010_0000 < kend <= 0xC040_0000
    ensures var empty, page := Region(0xB000_0000, 0, 3, USER_CODE), Region(0xB000_0000, 0x1000, 3, USER_CODE);
            var rs := Insert(BootRegions(kend), empty);
            && (forall i :: 0 <= i < |rs| ==> !Clashes(rs[i], page.base, page.size))
            && Insert(rs, page)[FirstAt(Insert(rs, page), page.base)] == empty
  {
    var bs := BootRegions(kend);
    var empty, page := Region(0xB000_0000, 0, 3, USER_CODE), Region(0xB000_0000, 0x1000, 3, USER_CODE);
    var rs := Insert(bs, empty);
    assert InsertPos(bs, empty.base) == 0 && rs == [empty] + bs;
    forall i | 0 <= i < |rs| ensures !Clashes(rs[i], page.base, page.size) {
      assert i > 0 ==> rs[i] == bs[i - 1] && bs[i - 1].base >= 0xC000_1000;
    }
    InsertedSlices(rs, InsertPos(rs, page.base), page);
    assert Insert(rs, page)[0] == empty;
  }

  /** The boot region at 0xC0001000, over the window, is not protected from unmapping. */
  lemma WindowUnprotected(kend: nat)
    requires 0xC010_0000 < kend <= 0xC040_0000
    ensures Unmappable(BootRegions(kend), 0xC000_1000)
  {
    assert BootRegions(kend)[0].base == 0xC000_1000;
  }
}
