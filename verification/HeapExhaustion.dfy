/** A boot with little memory, on which the heap grows over a page that has no frame. */
module HeapExhaustion {
  import opened Words
  import opened FrameBitmap
  import opened Pmm
  import opened MemoryMap
  import opened Paging
  import opened PageRanges
  import opened Regions
  import opened FrameDemand
  import opened Vmm
  import opened Ownership
  import opened HeapBlocks
  import opened Heap
  import opened HeapFaults
  import KernelHeap

  const KERNEL_END := 0x20_7000
  const KEND := 0xC020_7000

  /** One available range, from 1 MB to frame 4111. */
  const MAP := [MemoryMap.Entry(0x10_0000, 0, 0xF0_F000, 0, MEMORY_AVAILABLE)]

  lemma {:induction false} IntervalSize(s: set<nat>, lo: nat, hi: nat)
    requires lo <= hi && forall f :: f in s <==> lo <= f < hi
    ensures |s| == hi - lo
    decreases hi - lo
  {
    if lo < hi {
      IntervalSize(s - {hi - 1}, lo, hi - 1);
    }
  }

  /** What `pmm_init` makes of the map: frames 519 to 4110, of which the scan reaches those below 3592. */
  lemma BootFrames()
    ensures AllVisited(MAP, KERNEL_END) == EligibleFrames(519, 4111, KERNEL_END) && VisitCount(MAP, KERNEL_END) == 3592
    ensures Reach(3592) == 3592
  {
    assert MAP[1..] == [];
    assert StartFrame(MAP[0]) == 256 && EndFrame(MAP[0]) == 4111;
    assert Visited(MAP[0], KERNEL_END) == EligibleFrames(519, 4111, KERNEL_END);
    IntervalSize(EligibleFrames(519, 4111, KERNEL_END), 519, 4111);
  }

  /** The boot mapping with the first `i` heap pages mapped to frames 519 on. */
  function HeapFlat(i: nat): (flat: map<nat, nat>)
    ensures forall p: nat :: Lookup(flat, p) ==
              if !InDirectMap(p) then None else Some(if HEAP_PAGE <= p < HEAP_PAGE + i then 519 + (p - HEAP_PAGE) else p - KERNEL_PAGE)
  {
    map p: nat | p < PAGES && InDirectMap(p) :: if HEAP_PAGE <= p < HEAP_PAGE + i then 519 + (p - HEAP_PAGE) else p - KERNEL_PAGE
  }

  /** Memory once the heap has `i` pages; the directory and its four boot tables lie in the kernel image. */
  function HeapMem(tables: set<nat>, i: nat): Mem {
    Mem(Frames(EligibleFrames(519 + i, 4111, KERNEL_END), 3592, i), tables, {768, 769, 770, 771}, HeapFlat(i))
  }

  ghost predicate InImage(tables: set<nat>) {
    forall t :: t in tables ==> t < 519
  }

  lemma HeapMemSane(tables: set<nat>, i: nat)
    requires InImage(tables)
    ensures Sane(HeapMem(tables, i))
  {
    forall p: nat ensures (p in HeapFlat(i) ==> p < PAGES) && (InWindow(p) ==> Lookup(HeapFlat(i), p) == Some(p - KERNEL_PAGE)) {
      assert Lookup(HeapFlat(i), p).Some? <==> InDirectMap(p);
    }
  }

  lemma HeapNext(tables: set<nat>, i: nat)
    requires i < 3073
    ensures NextFrame(HeapMem(tables, i).frames) == Some(519 + i)
    ensures Take(HeapMem(tables, i).frames, 519 + i) == HeapMem(tables, i + 1).frames
  {
    assert Reach(3592) == 3592;
    assert Eligible(519 + i, KERNEL_END) && 519 + i in EligibleFrames(519 + i, 4111, KERNEL_END);
    assert EligibleFrames(519 + i, 4111, KERNEL_END) - {519 + i} == EligibleFrames(519 + i + 1, 4111, KERNEL_END);
    assert Wrap(i + 1) == i + 1;
  }

  /** One round of growth leads from one of these memories to the next. */
  lemma HeapStep(tables: set<nat>, i: nat)
    requires i < 3072
    ensures var m := HeapMem(tables, i);
            MapStep(m.(frames := Take(m.frames, 519 + i)), HEAP_PAGE + i, 519 + i) == (HeapMem(tables, i + 1), Mapped)
  {
    HeapNext(tables, i);
    var flat := HeapFlat(i)[HEAP_PAGE + i := 519 + i];
    forall p: nat ensures Lookup(flat, p) == Lookup(HeapFlat(i + 1), p) {
      assert p == HEAP_PAGE + i || Lookup(flat, p) == Lookup(HeapFlat(i), p);
    }
    LookupDecides(flat, HeapFlat(i + 1));
    assert (HEAP_PAGE + i) / 1024 in {768, 769, 770, 771};
  }

  lemma HeapRound(tables: set<nat>, i: nat)
    requires i < 3072
    ensures IsRound(HeapMem(tables, i), HeapMem(tables, i + 1), HEAP_PAGE + i)
  {
    HeapNext(tables, i);
    HeapStep(tables, i);
  }

  /** Each memory is the one before it after a successful round. */
  ghost predicate InRounds(ms: seq<Mem>, page: nat) {
    forall i :: 0 <= i < |ms| - 1 ==> IsRound(ms[i], ms[i + 1], page + i)
  }

  lemma LastRound(before: Rounds, page: nat, p: nat, m: Mem) returns (h: Rounds)
    requires Genuine(before, page) && p == page + Count(before) && IsRound(before.m, m, p)
    ensures Genuine(h, page) && First(h) == First(before) && Count(h) == Count(before) + 1 && h.m == m
  {
    GenuineNext(before, page, m);
    h := Then(before, m);
  }

  lemma {:induction false} RoundsOf(ms: seq<Mem>, page: nat, n: nat) returns (h: Rounds)
    requires n < |ms| && InRounds(ms, page)
    ensures Genuine(h, page) && First(h) == ms[0] && Count(h) == n && h.m == ms[n]
    decreases n
  {
    if n == 0 {
      h := Start(ms[0]);
    } else {
      h := RoundsOf(ms, page, n - 1);
      assert IsRound(ms[n - 1], ms[n - 1 + 1], page + (n - 1));
      h := LastRound(h, page, page + (n - 1), ms[n]);
    }
  }

  lemma GrownAlong(ms: seq<Mem>, page: nat, n: nat)
    requires n < |ms| && InRounds(ms, page) && Sane(ms[0]) && HEAP_PAGE <= page && page + n <= PAGES
    ensures Grown(ms[0], ms[n], page, n)
  {
    var h := RoundsOf(ms, page, n);
    RoundsGrow(h, page);
  }

  /** The memories from `i` pages of heap to `i + n`. */
  lemma HeapMems(tables: set<nat>, i: nat, n: nat) returns (ms: seq<Mem>)
    requires i + n <= 3072
    ensures |ms| == n + 1 && ms[0] == HeapMem(tables, i) && ms[n] == HeapMem(tables, i + n) && InRounds(ms, HEAP_PAGE + i)
  {
    ms := seq(n + 1, k requires 0 <= k => HeapMem(tables, i + k));
    forall k | 0 <= k < |ms| - 1 ensures IsRound(ms[k], ms[k + 1], HEAP_PAGE + i + k) {
      HeapRound(tables, i + k);
      assert ms[k] == HeapMem(tables, i + k) && ms[k + 1] == HeapMem(tables, i + k + 1);
    }
  }

  lemma HeapGrows(tables: set<nat>, i: nat, n: nat)
    requires InImage(tables) && i + n <= 3072
    ensures Grown(HeapMem(tables, i), HeapMem(tables, i + n), HEAP_PAGE + i, n)
  {
    var ms := HeapMems(tables, i, n);
    HeapMemSane(tables, i);
    GrownAlong(ms, HEAP_PAGE + i, n);
  }

  /** The heap of the run below, once it has `i` pages. */
  function HeapAt(tables: set<nat>, i: nat): State {
    State(HeapMem(tables, i), BootRegions(KEND), HEAP_PAGE + i)
  }

  lemma HeapEvent(tables: set<nat>, i: nat, n: nat)
    requires InImage(tables) && i + n <= 3072
    ensures Happens(HeapAt(tables, i), HeapGrown(n), HeapAt(tables, i + n))
  {
    HeapGrows(tables, i, n);
  }

  lemma BootHeap(tables: set<nat>)
    requires InImage(tables)
    ensures Owns(HeapAt(tables, 0), KEND) && HeapFlat(0) == BootFlat()
  {
    LookupDecides(HeapFlat(0), BootFlat());
    HeapMemSane(tables, 0);
    BootOwns(HeapMem(tables, 0), KEND);
  }

  /** With one frame left in reach, the first page past the boot tables takes it and gets no table. */
  lemma LastFrameTaken(tables: set<nat>)
    ensures KernelHeap.NoTableFor(HeapMem(tables, 3072), 0xC1000)
  {
    HeapNext(tables, 3072);
    assert Reach(3592) == 3592;
    assert NextFrame(Take(HeapMem(tables, 3072).frames, 3591)) == None;
    assert Lookup(HeapFlat(3072), 0xC1000) == None;
  }

  /** `kheap_init` takes 256 pages, and a growth of 2815 more brings the heap to 0xC0FFF000. */
  lemma HeapRun(tables: set<nat>)
    requires InImage(tables)
    ensures IsRun([HeapAt(tables, 0), HeapAt(tables, 256), HeapAt(tables, 3071)], [HeapGrown(256), HeapGrown(2815)])
    ensures Owns(HeapAt(tables, 3071), KEND)
  {
    BootHeap(tables);
    HeapEvent(tables, 0, 256);
    HeapEvent(tables, 256, 2815);
    TwoEvents(HeapAt(tables, 0), HeapGrown(256), HeapAt(tables, 256), HeapGrown(2815), HeapAt(tables, 3071));
  }

  lemma TwoEvents(s: State, e: Event, s1: State, e1: Event, s2: State)
    requires Owns(s, KEND) && Happens(s, e, s1) && Happens(s1, e1, s2)
    ensures IsRun([s, s1, s2], [e, e1]) && Owns(s2, KEND)
  {
    EventOwns(s, e, s1, KEND);
    EventOwns(s1, e1, s2, KEND);
  }

  /**
   Two frames are left in reach then. Growing by two pages maps one, loses the frame of the other and counts both: the
   ownership invariant, which held throughout, is gone.
   */
  lemma LastFrameWasted(tables: set<nat>, m: Mem, m': Mem)
    requires InImage(tables) && m == HeapMem(tables, 3071) && m' == HeapMem(tables, 3072)
    ensures HeapMem(tables, 0).frames == Frames(AllVisited(MAP, KERNEL_END), VisitCount(MAP, KERNEL_END), 0)
    ensures HeapMem(tables, 0).flat == BootFlat()
    ensures IsRun([HeapAt(tables, 0), HeapAt(tables, 256), HeapAt(tables, 3071)], [HeapGrown(256), HeapGrown(2815)])
    ensures var s, g, s' := HeapAt(tables, 3071), KernelHeap.Growth(1, m'), State(FrameTaken(m'), BootRegions(KEND), 0xC1001);
            && s.heapEnd == 0xC0FFF && s.mem == m && Owns(s, KEND) && TableMissing(s, g, s') && !Owns(s', KEND)
            && KernelHeap.PagesMoved(m, s'.mem, KernelHeap.TableMissing(true), 0xC0FF_F000, 8192, g)
  {
    BootFrames();
    BootHeap(tables);
    HeapRun(tables);
    HeapGrows(tables, 3071, 1);
    HeapRound(tables, 3071);
    LastFrameTaken(tables);
    HeapHole(HeapAt(tables, 3071), m', State(FrameTaken(m'), BootRegions(KEND), 0xC1001));
  }

  lemma HeapHole(s: State, m': Mem, s': State)
    requires Owns(s, KEND) && s.heapEnd == 0xC0FFF && Grown(s.mem, m', 0xC0FFF, 1) && KernelHeap.NoTableFor(m', 0xC1000)
    requires IsRound(s.mem, m', 0xC0FFF) && s' == State(FrameTaken(m'), s.regions, 0xC1001)
    ensures TableMissing(s, KernelHeap.Growth(1, m'), s') && !Owns(s', KEND)
    ensures KernelHeap.PagesMoved(s.mem, s'.mem, KernelHeap.TableMissing(true), 0xC0FF_F000, 8192, KernelHeap.Growth(1, m'))
  {
    TableMissingOwns(s, s', KEND, KernelHeap.Growth(1, m'));
    NotEnoughForTwo(s.mem, m');
  }

  lemma NotEnoughForTwo(m: Mem, m': Mem)
    requires IsRound(m, m', 0xC0FFF) && KernelHeap.NoTableFor(m', 0xC1000)
    ensures !Suffices(m, 0xC0FFF, 2)
  {
    GenuineNext(Start(m), 0xC0FFF, m');
    FailureCounted(Then(Start(m), m'), 0xC0FFF, m, 1, NoTableFrame);
  }

  // ---- The allocations that lead there ----

  /** The heap after `kmalloc(0xAFEFF0)`, which grows it by 2815 pages, and `kmalloc(0xFFFF8)`, which takes the rest. */
  const FULL := HeapState([Block(0xAF_EFF0, false), Block(0xF_FFF8, false)], 0xC0FF_F000, 0xAF_EFF0 + 0xF_FFF8)

  lemma FirstAllocation()
    ensures Malloc(InitialHeap(), 0xAF_EFF0, true).0 ==
            HeapState([Block(0xAF_EFF0, false), Block(0xF_FFF8, true)], 0xC0FF_F000, 0xAF_EFF0)
    ensures GrowBy(Round8(0xAF_EFF0)) == 4096 * 2815 && FirstFit(InitialHeap().blocks, 0xAF_EFF0) == 1
  {
    var b := Block(INITIAL_HEAP_SIZE - 12, true);
    assert InitialHeap().blocks == [b] && [b][1..] == [];
    assert Round8(0xAF_EFF0) == 0xAF_EFF0 && GrowBy(0xAF_EFF0) == 0xAF_F000;
    assert Wrap(0xC050_0000 + 0xAF_F000) == 0xC0FF_F000;
    assert Extend([b], 0xAF_F000) == [Block(0xBF_EFF4, true)];
    assert FirstFit([Block(0xBF_EFF4, true)], 0xAF_EFF0) == 0;
  }

  lemma SecondAllocation(h: HeapState)
    requires h == Malloc(InitialHeap(), 0xAF_EFF0, true).0
    ensures FirstFit(h.blocks, 0xF_FFF8) < |h.blocks| && Malloc(h, 0xF_FFF8, true).0 == FULL
  {
    FirstAllocation();
    TakeRest(h);
  }

  lemma TakeRest(h: HeapState)
    requires h == HeapState([Block(0xAF_EFF0, false), Block(0xF_FFF8, true)], 0xC0FF_F000, 0xAF_EFF0)
    ensures FirstFit(h.blocks, 0xF_FFF8) == 1 && Malloc(h, 0xF_FFF8, true).0 == FULL
  {
    var first, rest := h.blocks[0], h.blocks[1];
    assert h.blocks[1..] == [rest] && FirstFit([rest], 0xF_FFF8) == 0;
    assert Round8(0xF_FFF8) == 0xF_FFF8;
    assert Allocate([rest], 0, 0xF_FFF8) == [Block(0xF_FFF8, false)] + [rest][1..];
    assert Allocate(h.blocks, 1, 0xF_FFF8) == [first] + Allocate([rest], 0, 0xF_FFF8);
  }

  lemma FullHeap()
    ensures HeapInv(FULL) && forall s: nat :: FirstFit(FULL.blocks, s) == 2
  {
    assert FULL.blocks[1..] == [Block(0xF_FFF8, false)] && FULL.blocks[1..][1..] == [];
  }

  lemma WholeToHole(end: nat)
    requires end <= 0xC100_0000
    ensures WholeBelow(HeapFlat(3072), end) && 0xC1000 !in HeapFlat(3072)
  {
    forall p: nat | HEAP_START / 4096 <= p && 4096 * p < end ensures p in HeapFlat(3072) {
      assert Lookup(HeapFlat(3072), p).Some?;
    }
    assert Lookup(HeapFlat(3072), 0xC1000) == None;
  }

  /** `kmalloc(8170)` on that heap succeeds, with a payload that ends on the page that has no table. */
  lemma HoleInPayload(flat: map<nat, nat>)
    requires flat == HeapFlat(3072)
    ensures GrowBy(Round8(8170)) == 8192 && !Faults(flat, FULL, 8170, true) && 0xC1000 !in flat
    ensures var (h, ptr) := Malloc(FULL, 8170, true); ptr == 0xC0FF_F00C && ptr in LiveIn(h) && LiveIn(h)[ptr] >= 8170
  {
    FullHeap();
    WholeToHole(0xC100_0000);
    assert Round8(8170) == 8176 && GrowBy(8176) == 8192;
    MissingPageFaults(flat, FULL, 8170, 8176, FULL.blocks[1]);
    MallocInv(FULL, 8170, true);
    var i, b := FitAfterExtend(HEAP_START, FULL.blocks, Extend(FULL.blocks, 8192), 8192, 8176, FULL.blocks[1]);
  }

  /** `kmalloc(100)` on a full heap that ends at that page faults: the new block's header would lie on it. */
  lemma HeaderOnHole(flat: map<nat, nat>)
    requires flat == HeapFlat(3072)
    ensures var h := HeapState([Block(0xBF_FFF4, false)], 0xC100_0000, 0xBF_FFF4); HeapInv(h) && Faults(flat, h, 100, true)
  {
    var h := HeapState([Block(0xBF_FFF4, false)], 0xC100_0000, 0xBF_FFF4);
    assert h.blocks[1..] == [];
    WholeToHole(0xC100_0000);
    assert Round8(100) == 104 && GrowBy(104) == 4096;
    MissingPageFaults(flat, h, 100, 104, h.blocks[0]);
  }
}
