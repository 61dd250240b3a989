/** kernel/vmm.c: mapping and unmapping regions of the kernel address space. */
module Vmm {
  import opened Words
  import opened FrameBitmap
  import opened Pmm
  import opened PageTables
  import opened Paging
  import opened PageRanges
  import opened Regions
  import opened FrameDemand

  /**
   What became of `vmm_map_region`: 0 (`Done`); -1 with nothing touched (`Refused`); -1 after a rollback
   (`RolledBack`); the fault that zeroing a page without a table takes, which halts the machine (`Halted`);
   or a page table outside the direct-map window, where the model stops (`Stopped`).
   */
  datatype MapResult = Done | Refused | RolledBack | Halted | Stopped

  datatype PagesResult = AllMapped | NoFrame | NoTableFrame | TableTooHigh

  /** No page of the range is in the direct-map window. */
  ghost predicate ClearOfWindow(page: nat, n: nat) {
    forall p: nat :: page <= p < page + n ==> !InWindow(p)
  }

  /** `vmm_flags_to_page_flags`. */
  function PageFlags(vmmFlags: nat): nat {
    1 + (if vmmFlags / 2 % 2 == 1 then 2 else 0) + (if vmmFlags / 8 % 2 == 1 then 4 else 0)
  }

  /** Writable and accessible to the user exactly as asked, and present. */
  lemma PageFlagBits(vmmFlags: nat)
    ensures var f := PageFlags(vmmFlags);
            f % 2 == 1 && (f / 2 % 2 == 1 <==> vmmFlags / 2 % 2 == 1) && (f / 4 % 2 == 1 <==> vmmFlags / 8 % 2 == 1) && f < 8
  {
  }

  /** What one round of the mapping loop comes to, at `page` with memory `m`. */
  function RoundResult(m: Mem, page: nat): PagesResult {
    match NextFrame(m.frames)
    case None => NoFrame
    case Some(f) =>
      match MapStep(m.(frames := Take(m.frames, f)), page, f).1
      case Mapped => AllMapped
      case NoTable => NoTableFrame
      case HighTable => TableTooHigh
  }

  /** Memory once the round has taken its frame. */
  function FrameTaken(m: Mem): Mem {
    match NextFrame(m.frames)
    case None => m
    case Some(f) => m.(frames := Take(m.frames, f))
  }

  /** Memory after a round that maps `page`. */
  function NextMem(m: Mem, page: nat): Mem {
    match NextFrame(m.frames)
    case None => m
    case Some(f) => MapStep(FrameTaken(m), page, f).0
  }

  /** A round that succeeds takes one frame, or two if the slot has no table yet. */
  lemma RoundTakes(m: Mem, page: nat, bound: nat)
    requires RoundResult(m, page) == AllMapped && bound <= Reach(m.frames.total)
    ensures NextMem(m, page).frames.total == m.frames.total && NextMem(m, page).slots == m.slots + {page / 1024}
    ensures CountBelow(NextMem(m, page).frames.clear, bound) ==
            Left(CountBelow(m.frames.clear, bound), if page / 1024 in m.slots then 1 else 2)
  {
    var f := NextFrame(m.frames).value;
    TakeLowers(m.frames, f, bound);
    if page / 1024 in m.slots {
      assert m.slots + {page / 1024} == m.slots;
    } else {
      TakeLowers(Take(m.frames, f), NextFrame(Take(m.frames, f)).value, bound);
    }
  }

  /** How a round ends, by counting frames. */
  lemma RoundByCount(m: Mem, page: nat)
    ensures RoundResult(m, page) ==
            if Found(m) == 0 then NoFrame
            else if page / 1024 in m.slots then AllMapped
            else if Found(m) == 1 then NoTableFrame
            else if FoundLow(m) >= 2 then AllMapped
            else TableTooHigh
  {
    NextIsFound(m);
    if Found(m) > 0 && page / 1024 !in m.slots {
      var f := NextFrame(m.frames).value;
      var taken := m.(frames := Take(m.frames, f));
      TakeLowers(m.frames, f, Reach(m.frames.total));
      TakeLowers(m.frames, f, TableBound(m.frames.total));
      NextIsFound(taken);
      if Found(m) > 1 {
        TakeLowers(taken.frames, NextFrame(taken.frames).value, TableBound(m.frames.total));
      }
    }
  }

  /** `a` is memory with the frames and slots of `n` pages taken from `m`, as far as can be seen below `bound`. */
  ghost predicate Taken(m: Mem, a: Mem, page: nat, n: nat, bound: nat) {
    && a.frames.total == m.frames.total && a.slots == m.slots + SlotsOf(page, n)
    && CountBelow(a.frames.clear, bound) == Left(CountBelow(m.frames.clear, bound), n + TablesFor(m, page, n))
  }

  lemma TakenNext(m: Mem, a: Mem, a': Mem, page: nat, n: nat, bound: nat)
    requires Taken(m, a, page, n, bound) && bound <= Reach(m.frames.total)
    requires RoundResult(a, page + n) == AllMapped && a' == NextMem(a, page + n)
    ensures Taken(m, a', page, n + 1, bound)
  {
    RoundTakes(a, page + n, bound);
    NeedsNew(m, page, n);
    assert SlotsOf(page, n + 1) == SlotsOf(page, n) + {(page + n) / 1024};
  }

  /** The same below both bounds that matter. */
  ghost predicate TakenFrom(m: Mem, a: Mem, page: nat, n: nat) {
    Taken(m, a, page, n, Reach(m.frames.total)) && Taken(m, a, page, n, TableBound(m.frames.total))
  }

  lemma TakenNothing(m: Mem, page: nat)
    ensures TakenFrom(m, m, page, 0)
  {
    assert m.slots + SlotsOf(page, 0) == m.slots;
  }

  /** How a round ends once the frames for `n` pages are taken. */
  lemma CountDecides(m: Mem, a: Mem, page: nat, n: nat)
    requires n + TablesFor(m, page, n) <= Found(m) && TakenFrom(m, a, page, n)
    ensures RoundResult(a, page + n) == AllMapped <==> OneMoreFits(m, page, n)
    ensures RoundResult(a, page + n) == NoFrame <==> Found(m) == n + TablesFor(m, page, n)
    ensures RoundResult(a, page + n) == NoTableFrame <==> NeedsTable(m, page, n) && Found(m) == n + TablesFor(m, page, n) + 1
  {
    RoundByCount(a, page + n);
    NeedsNew(m, page, n);
  }

  lemma TakenStep(m: Mem, a: Mem, a': Mem, page: nat, n: nat)
    requires TakenFrom(m, a, page, n) && RoundResult(a, page + n) == AllMapped && a' == NextMem(a, page + n)
    ensures TakenFrom(m, a', page, n + 1)
  {
    TakenNext(m, a, a', page, n, Reach(m.frames.total));
    TakenNext(m, a, a', page, n, TableBound(m.frames.total));
  }

  /** What successful rounds of the mapping loop have made of memory, one after the other. */
  datatype Rounds = Start(m: Mem) | Then(before: Rounds, m: Mem)

  function First(h: Rounds): Mem {
    match h
    case Start(m) => m
    case Then(before, _) => First(before)
  }

  function Count(h: Rounds): nat {
    match h
    case Start(_) => 0
    case Then(before, _) => Count(before) + 1
  }

  /** Each is the successful round of its page, from `page` on. */
  predicate Genuine(h: Rounds, page: nat) {
    match h
    case Start(_) => true
    case Then(before, m) => Genuine(before, page) && IsRound(before.m, m, page + Count(before))
  }

  predicate IsRound(a: Mem, a': Mem, page: nat) {
    RoundResult(a, page) == AllMapped && a' == NextMem(a, page)
  }

  /** There were frames for `n` pages in `m`, and in `a` those are gone. */
  ghost predicate Tally(m: Mem, a: Mem, page: nat, n: nat) {
    Suffices(m, page, n) && TakenFrom(m, a, page, n)
  }

  lemma TallyStep(m: Mem, a: Mem, a': Mem, page: nat, n: nat, k: nat)
    requires Tally(m, a, page, n) && IsRound(a, a', page + n) && k == n + 1
    ensures Tally(m, a', page, k)
  {
    SufficesBound(m, page, n);
    CountDecides(m, a, page, n);
    TakenStep(m, a, a', page, n);
  }

  /** Where rounds succeeded there were frames for them, and those are gone. */
  lemma {:induction false} RoundsTally(h: Rounds, page: nat)
    requires Genuine(h, page)
    ensures Tally(First(h), h.m, page, Count(h))
  {
    match h
    case Start(m) => TakenNothing(m, page);
    case Then(before, m) =>
      RoundsTally(before, page);
      TallyStep(First(before), before.m, m, page, Count(before), Count(h));
  }

  /** Why mapping from `page` on ends after `n` pages, in terms of memory at the start. */
  ghost predicate EndsAfter(m: Mem, page: nat, n: nat, r: PagesResult) {
    && !r.AllMapped? && Suffices(m, page, n) && !Suffices(m, page, n + 1)
    && (r.NoFrame? <==> Found(m) == n + TablesFor(m, page, n))
    && (r.NoTableFrame? <==> NeedsTable(m, page, n) && Found(m) == n + TablesFor(m, page, n) + 1)
  }

  /** The next round fails for want of what memory at the start did not have. */
  lemma TallyEnds(m: Mem, a: Mem, page: nat, n: nat, r: PagesResult)
    requires Tally(m, a, page, n) && r == RoundResult(a, page + n) && !r.AllMapped?
    ensures EndsAfter(m, page, n, r)
  {
    SufficesBound(m, page, n);
    CountDecides(m, a, page, n);
  }

  lemma RoundSane(m: Mem, m': Mem, page: nat)
    requires Sane(m) && page < PAGES && !InWindow(page) && IsRound(m, m', page)
    ensures Sane(m')
  {
    var f := NextFrame(m.frames).value;
    TakenSane(m, f);
    MapStepSane(FrameTaken(m), page, f);
  }

  lemma GrownStep(m: Mem, a: Mem, a': Mem, page: nat, n: nat, k: nat)
    requires Sane(m) && Sane(a) && Grown(m, a, page, n) && IsRound(a, a', page + n) && k == n + 1
    ensures Grown(m, a', page, k)
  {
    var l := GrownOneMoreTo(m, a, a', page, n, NextFrame(a.frames).value);
  }

  lemma {:induction false} RoundsSane(h: Rounds, page: nat)
    requires Sane(First(h)) && Genuine(h, page) && ClearOfWindow(page, Count(h)) && page + Count(h) <= PAGES
    ensures Sane(h.m)
  {
    match h
    case Start(m) =>
    case Then(before, m) =>
      RoundsSane(before, page);
      assert !InWindow(page + Count(before));
      RoundSane(before.m, m, page + Count(before));
  }

  /** Each page gets a frame of its own out of the clear ones, and nothing else changes but for new tables. */
  lemma {:induction false} RoundsGrow(h: Rounds, page: nat)
    requires Sane(First(h)) && Genuine(h, page) && ClearOfWindow(page, Count(h)) && page + Count(h) <= PAGES
    ensures Grown(First(h), h.m, page, Count(h))
  {
    match h
    case Start(m) => GrownNothing(m, page);
    case Then(before, m) =>
      RoundsGrow(before, page);
      RoundsSane(before, page);
      GrownStep(First(before), before.m, m, page, Count(before), Count(h));
  }

  lemma NowMarked(store: Store, s: Store, dir: nat, p: nat, flags: nat, frame: nat, table: nat)
    requires WellFormed(store, dir) && p / 1024 < 1024 && (HasTable(store, dir, p / 1024) || table !in store)
    requires s == MapIn(store, dir, p / 1024, p % 1024, frame, flags, table)
    ensures Marked(s, dir, p, flags)
  {
    assert MapsTo(store, s, dir, p, flags, frame, table);
    SetsMarks(store, s, dir, p, flags, p);
  }

  /** One round of the mapping loop: a frame is allocated and mapped at `vaddr`. */
  method MapFresh(paging: KernelPaging, vaddr: nat, flags: nat, ghost p: nat) returns (r: PagesResult)
    requires paging.Valid() && vaddr < TWO32 && p == vaddr / 4096 && !InWindow(p)
    modifies paging`store, paging`slots, paging`flat, paging.pmm`usedFrames, paging.pmm.bitmap
    ensures r == RoundResult(old(paging.View()), p) && (!r.TableTooHigh? ==> paging.Valid())
    ensures r.NoFrame? ==> paging.View() == old(paging.View())
    ensures r.NoTableFrame? ==> paging.View() == FrameTaken(old(paging.View())) && p !in old(paging.flat)
    ensures r.AllMapped? ==> paging.View() == NextMem(old(paging.View()), p)
    ensures r.AllMapped? ==> Marked(paging.store, paging.dir, p, flags)
  {
    ghost var m := paging.View();
    if p / 1024 !in paging.slots {
      NoTableNoPage(paging.store, paging.dir, m, p);
    }
    var frame := paging.pmm.Alloc();
    if frame == 0 {
      return NoFrame;
    }
    TakenSane(m, frame / 4096);
    assert paging.View() == m.(frames := Take(m.frames, frame / 4096));
    ghost var was, table := paging.store, paging.NewTable();
    var o := paging.MapPage(vaddr, frame, flags);
    if o == Mapped {
      NowMarked(was, paging.store, paging.dir, p, flags, frame / 4096, table);
    }
    r := match o case Mapped => AllMapped case NoTable => NoTableFrame case HighTable => TableTooHigh;
  }

  lemma GenuineNext(h: Rounds, page: nat, m: Mem)
    requires Genuine(h, page) && IsRound(h.m, m, page + Count(h))
    ensures Genuine(Then(h, m), page) && First(Then(h, m)) == First(h) && Count(Then(h, m)) == Count(h) + 1
  {
  }

  /** The same round, added to those before it if it succeeds. */
  method MapRound(paging: KernelPaging, vaddr: nat, flags: nat, ghost h: Rounds, ghost page: nat, ghost p: nat)
    returns (r: PagesResult, ghost h': Rounds)
    requires paging.Valid() && vaddr < TWO32 && p == vaddr / 4096 && !InWindow(p)
    requires Genuine(h, page) && paging.View() == h.m && p == page + Count(h)
    modifies paging`store, paging`slots, paging`flat, paging.pmm`usedFrames, paging.pmm.bitmap
    ensures r == RoundResult(h.m, p) && (!r.TableTooHigh? ==> paging.Valid())
    ensures Genuine(h', page) && First(h') == First(h) && Count(h') == Count(h) + if r.AllMapped? then 1 else 0
    ensures r.AllMapped? || r.NoFrame? ==> paging.View() == h'.m
    ensures !r.AllMapped? ==> h' == h
    ensures r.NoTableFrame? ==> paging.View() == FrameTaken(h.m) && p !in h.m.flat
  {
    r := MapFresh(paging, vaddr, flags, p);
    h' := RoundAdded(h, page, p, paging.View(), r == AllMapped);
  }

  lemma RoundAdded(h: Rounds, page: nat, p: nat, now: Mem, added: bool) returns (h': Rounds)
    requires Genuine(h, page) && p == page + Count(h) && (added ==> RoundResult(h.m, p) == AllMapped && now == NextMem(h.m, p))
    ensures Genuine(h', page) && First(h') == First(h)
    ensures if added then Count(h') == Count(h) + 1 && h'.m == now else h' == h
  {
    h' := h;
    if added {
      GenuineNext(h, page, now);
      h' := Then(h, now);
    }
  }

  /** The same round, and if it fails, why. */
  method MapOnePage(paging: KernelPaging, vaddr: nat, flags: nat, ghost h: Rounds, ghost page: nat)
    returns (r: PagesResult, ghost h': Rounds)
    requires paging.Valid() && vaddr < TWO32 && !InWindow(vaddr / 4096)
    requires Genuine(h, page) && paging.View() == h.m && vaddr / 4096 == page + Count(h)
    modifies paging`store, paging`slots, paging`flat, paging.pmm`usedFrames, paging.pmm.bitmap
    ensures Genuine(h', page) && First(h') == First(h) && Count(h') == Count(h) + if r.AllMapped? then 1 else 0
    ensures r.AllMapped? || r.NoFrame? ==> paging.Valid() && paging.View() == h'.m
    ensures !r.AllMapped? ==> EndsAfter(First(h), page, Count(h), r)
  {
    r, h' := MapRound(paging, vaddr, flags, h, page, page + Count(h));
    if r != AllMapped {
      FailureCounted(h, page, First(h), Count(h), r);
    }
  }

  lemma FailureCounted(h: Rounds, page: nat, m: Mem, n: nat, r: PagesResult)
    requires Genuine(h, page) && m == First(h) && n == Count(h) && r == RoundResult(h.m, page + n) && !r.AllMapped?
    ensures EndsAfter(m, page, n, r)
  {
    RoundsTally(h, page);
    TallyEnds(m, h.m, page, n, r);
  }

  lemma GrownOneMoreTo(m: Mem, m1: Mem, m2: Mem, page: nat, n: nat, f: nat) returns (n': nat)
    requires Sane(m) && Sane(m1) && Grown(m, m1, page, n) && NextFrame(m1.frames) == Some(f)
    requires (m2, Mapped) == MapStep(m1.(frames := Take(m1.frames, f)), page + n, f)
    ensures n' == n + 1 && Grown(m, m2, page, n')
  {
    n' := n + 1;
    GrownOneMore(m, m1, page, n, f);
  }

  lemma GrownEqual(m: Mem, m1: Mem, m2: Mem, page: nat, n: nat)
    requires m1 == m2 && Grown(m, m1, page, n)
    ensures Grown(m, m2, page, n)
  {
  }

  lemma TakenSane(m: Mem, f: nat)
    requires Sane(m)
    ensures Sane(m.(frames := Take(m.frames, f)))
  {
  }

  /**
   The mapping loop of `vmm_map_region`; `n` pages are done when it ends, and `mid` is memory then. It goes through
   exactly as far as memory suffices.
   */
  method MapPages(paging: KernelPaging, vaddr: nat, size: nat, flags: nat)
    returns (r: PagesResult, offset: nat, ghost n: nat, ghost mid: Mem)
    requires paging.Valid() && vaddr % 4096 == 0 && size % 4096 == 0 && vaddr + size < TWO32
    requires ClearOfWindow(vaddr / 4096, size / 4096)
    modifies paging`store, paging`slots, paging`flat, paging.pmm`usedFrames, paging.pmm.bitmap
    ensures offset == 4096 * n <= size && Grown(old(paging.View()), mid, vaddr / 4096, n)
    ensures r.AllMapped? || r.NoFrame? ==> paging.Valid() && paging.View() == mid
    ensures Suffices(old(paging.View()), vaddr / 4096, n)
    ensures if r.AllMapped? then offset == size else offset < size && EndsAfter(old(paging.View()), vaddr / 4096, n, r)
  {
    ghost var m, page, all := paging.View(), vaddr / 4096, size / 4096;
    ghost var h := Start(m);
    offset, n, r := 0, 0, AllMapped;
    while offset < size && r == AllMapped
      invariant offset == 4096 * n && n <= all && n == Count(h) && Genuine(h, page) && First(h) == m
      invariant r.AllMapped? || r.NoFrame? ==> paging.Valid() && paging.View() == h.m
      invariant !r.AllMapped? ==> n < all && EndsAfter(m, page, n, r)
      decreases size - offset, r == AllMapped
    {
      r, h := MapOnePage(paging, vaddr + offset, flags, h, page);
      if r == AllMapped {
        offset, n := offset + 4096, n + 1;
      }
    }
    mid := h.m;
    RoundsGrow(h, page);
    RoundsTally(h, page);
  }

  lemma GrownNothing(m: Mem, page: nat)
    ensures Grown(m, m, page, 0)
  {
  }

  /** Tables and clear frames as in a sane state, whatever is mapped. */
  ghost predicate FramesSane(m: Mem) {
    m.tables !! m.frames.clear && forall f :: f in m.frames.clear ==> 256 <= f < BITMAP_FRAMES
  }

  lemma GrownFrame(m: Mem, m1: Mem, page: nat, n: nat)
    requires Grown(m, m1, page, n) && n > 0 && FramesSane(m)
    ensures 256 <= m1.flat[page] < BITMAP_FRAMES && m1.flat[page] !in m1.frames.clear && m1.flat[page] !in m1.tables
  {
    BehindFirst(m1.flat, page, n);
    assert m1.flat[page] in Behind(m1.flat, page, n);
    assert m1.flat[page] in m.frames.clear - m1.frames.clear;
  }

  lemma ReleaseSane(m: Mem, page: nat)
    requires Sane(m) && page in m.flat && !InWindow(page)
    requires 256 <= m.flat[page] < BITMAP_FRAMES && m.flat[page] !in m.tables
    ensures Sane(ReleaseStep(m, page))
  {
  }

  lemma GrownOneLessTo(m: Mem, m': Mem, m1: Mem, m2: Mem, page: nat, n: nat) returns (page': nat, n': nat)
    requires Grown(m, m1, page, n) && n > 0 && m' == m.(flat := m.flat - {page}) && m2 == ReleaseStep(m1, page)
    ensures page' == page + 1 && n' == n - 1 && Grown(m', m2, page', n')
  {
    page', n' := page + 1, n - 1;
    GrownOneLess(m, m1, page, n);
  }

  /** One round of a releasing loop. */
  method ReleaseOnePage(paging: KernelPaging, vaddr: nat, ghost m: Mem, ghost m': Mem, ghost page: nat, ghost n: nat)
    returns (ghost page': nat, ghost n': nat)
    requires paging.Valid() && vaddr == page * 4096 < TWO32 && !InWindow(page)
    requires FramesSane(m) && n > 0 && Grown(m, paging.View(), page, n) && m' == m.(flat := m.flat - {page})
    modifies paging`store, paging`flat, paging.pmm`usedFrames, paging.pmm.bitmap
    ensures paging.Valid() && paging.store.Keys == old(paging.store.Keys)
    ensures page' == page + 1 && n' == n - 1 && Grown(m', paging.View(), page', n')
  {
    ghost var m1 := paging.View();
    GrownFrame(m, m1, page, n);
    ReleaseSane(m1, page);
    var phys := paging.GetPhysical(vaddr);
    assert phys == m1.flat[page] * 4096 && phys / 4096 == m1.flat[page];
    paging.UnmapPage(vaddr);
    if phys != 0 {
      paging.pmm.Free(phys);
    }
    assert paging.View() == ReleaseStep(m1, page);
    page', n' := GrownOneLessTo(m, m', m1, paging.View(), page, n);
  }

  /** The rollback loops of `vmm_map_region` and the loop of `vmm_unmap_region`: pages are unmapped and their frames freed. */
  method ReleasePages(paging: KernelPaging, vaddr: nat, size: nat, ghost m: Mem, ghost page: nat, ghost n: nat)
    requires paging.Valid() && vaddr == page * 4096 && size == n * 4096 && vaddr + size < TWO32
    requires ClearOfWindow(page, n) && FramesSane(m) && Grown(m, paging.View(), page, n)
    modifies paging`store, paging`flat, paging.pmm`usedFrames, paging.pmm.bitmap
    ensures paging.Valid() && paging.store.Keys == old(paging.store.Keys)
    ensures Undone(m, paging.View(), page, n)
  {
    ghost var i, q, left, now := 0, page, n, m;
    ghost var keys := paging.store.Keys;
    var undo := 0;
    while undo < size
      invariant undo == 4096 * i && i <= n && q == page + i && left == n - i && paging.Valid()
      invariant now == m.(flat := Drop(m.flat, page, i)) && paging.store.Keys == keys
      invariant Grown(now, paging.View(), q, left)
      decreases size - undo
    {
      ghost var next := m.(flat := Drop(m.flat, page, i + 1));
      q, left := ReleaseOnePage(paging, vaddr + undo, now, next, q, left);
      undo, i, now := undo + 4096, i + 1, next;
    }
    GrownByNothing(m, now, paging.View(), page, n, q, left);
  }

  /** An accepted range lies outside the boot regions, in particular outside the window. */
  lemma AcceptedRange(rs: seq<Region>, kend: nat, r: Region)
    requires ListInv(rs) && Guarded(rs, kend) && r.Good()
    requires forall i :: 0 <= i < |rs| ==> !Clashes(rs[i], r.base, r.size)
    ensures forall e :: 0 <= e < |rs| ==> r.Apart(rs[e])
    ensures r.size == 0 || r.End() <= 0xC000_1000 || 0xC140_0000 <= r.base
    ensures ClearOfWindow(r.base / 4096, r.size / 4096)
  {
    forall e | 0 <= e < |rs| ensures r.Apart(rs[e]) {
      assert rs[e] in rs;
      NoClashIsApart(rs[e], r);
    }
    if r.size > 0 {
      forall b | b in BootRegions(kend) ensures r.Apart(b) {
        assert b in rs;
      }
      OutsideBoot(rs, kend, r);
    }
  }

  lemma InsertGuarded(rs: seq<Region>, kend: nat, r: Region)
    requires Guarded(rs, kend)
    ensures Guarded(Insert(rs, r), kend)
  {
    InsertedElements(rs, InsertPos(rs, r.base), r);
    forall b | b in BootRegions(kend) ensures b in Insert(rs, r) {
      assert b in multiset(rs) && b in multiset(Insert(rs, r));
    }
  }

  /** `vmm_unmap_region`'s loop over a range whose frames are all its own. */
  method ReleaseOwned(paging: KernelPaging, base: nat, size: nat, ghost page: nat, ghost n: nat)
    requires paging.Valid() && 4096 * page == base && 4096 * n == size && base + size < TWO32
    requires Owned(paging.View(), page, n) && ClearOfWindow(page, n)
    modifies paging`store, paging`flat, paging.pmm`usedFrames, paging.pmm.bitmap
    ensures paging.Valid() && Freed(old(paging.View()), paging.View(), page, n)
  {
    ghost var m := paging.View();
    OwnedCouldGrow(m, page, n);
    ReleasedFramesSane(m, page, n);
    ReleasePages(paging, base, size, Released(m, page, n), page, n);
    FreedFromUndone(m, paging.View(), page, n);
  }

  class KernelSpace {
    const paging: KernelPaging
    const list: RegionList
    const kend: nat

    ghost predicate Valid()
      reads this, paging, paging.pmm, paging.pmm.bitmap, list, list.pool
    {
      paging.Valid() && list.Valid() && ListInv(list.List()) && Guarded(list.List(), kend)
    }

    /** `vmm_init`: the regions that paging and the heap have set up already are registered. */
    constructor (paging: KernelPaging, kend: nat)
      requires paging.Valid() && 0xC010_0000 < kend <= 0xC040_0000 && kend % 4096 == 0
      ensures this.paging == paging && this.kend == kend && fresh(list) && fresh(list.pool)
      ensures Valid() && list.List() == BootRegions(kend) && list.used == |BootRegions(kend)|
    {
      this.paging, this.kend := paging, kend;
      list := new RegionList();
      new;
      BootInv(kend);
      list.RegisterBoot(kend);
    }

    /** The end of `vmm_map_region`: the region is entered, unless the pool is used up. */
    method EnterRegion(region: Region) returns (entered: bool)
      requires Valid() && region.Good()
      requires forall e :: 0 <= e < |list.List()| ==> region.Apart(list.List()[e])
      modifies list, list.pool
      ensures Valid() && (entered <==> old(list.used) < VMM_MAX_REGIONS)
      ensures list.List() == if entered then Insert(old(list.List()), region) else old(list.List())
    {
      InsertKeeps(list.List(), region);
      InsertGuarded(list.List(), kend, region);
      var slot := list.RegisterExisting(region.base, region.size, region.flags, region.kind);
      entered := slot != -1;
    }

    /** The part of `vmm_map_region` after the overlap check. */
    method MapAccepted(region: Region) returns (r: MapResult, ghost done: nat, ghost mid: Mem)
      requires Valid() && region.Good() && ClearOfWindow(region.base / 4096, region.size / 4096)
      requires forall e :: 0 <= e < |list.List()| ==> region.Apart(list.List()[e])
      modifies paging, paging.pmm`usedFrames, paging.pmm.bitmap, list, list.pool
      ensures !r.Refused? && (!r.Done? ==> list.List() == old(list.List()))
      ensures 4096 * done <= region.size && Grown(old(paging.View()), mid, region.base / 4096, done)
      ensures MapEnds(old(paging.View()), region.base / 4096, region.size / 4096, done, old(list.used), r)
      ensures r.Done? ==> Valid() && list.List() == Insert(old(list.List()), region) && paging.View() == mid
      ensures r.RolledBack? ==> Valid() && Undone(old(paging.View()), paging.View(), region.base / 4096, done)
    {
      ghost var m := paging.View();
      var p, offset, n, at := MapPages(paging, region.base, region.size, PageFlags(region.flags));
      done, mid := n, at;
      r := match p case NoTableFrame => Halted case TableTooHigh => Stopped case _ => RolledBack;
      if p == AllMapped {
        var entered := EnterRegion(region);
        if entered {
          r := Done;
        }
      }
      if r == RolledBack {
        ReleasePages(paging, region.base, offset, m, region.base / 4096, n);
      }
    }

    /**
     `vmm_map_region` on the kernel address space. `done` counts the pages that got a frame and `mid` is memory
     when the last of them had; how the call ends is decided there.
     */
    method MapRegion(vaddr: nat, size: nat, flags: nat, kind: nat) returns (r: MapResult, ghost done: nat, ghost mid: Mem)
      requires Valid() && vaddr + size < TWO32
      modifies paging, paging.pmm`usedFrames, paging.pmm.bitmap, list, list.pool
      ensures r.Refused? || r.Done? || r.RolledBack? ==> Valid()
      ensures MapDid(old(paging.View()), mid, paging.View(), old(list.List()), list.List(), old(list.used),
                     Region(vaddr, size, flags, kind), r, done)
    {
      mid := paging.View();
      if vaddr % 4096 != 0 || size % 4096 != 0 {
        return Refused, 0, mid;
      }
      var overlap := list.Overlaps(vaddr, size);
      if overlap {
        return Refused, 0, mid;
      }
      AcceptedRange(list.List(), kend, Region(vaddr, size, flags, kind));
      r, done, mid := MapAccepted(Region(vaddr, size, flags, kind));
    }

    /** Taking a region off the list that is not a boot region. */
    method RemoveFromList(slot: nat, ghost k: nat)
      requires list.Valid() && ListInv(list.List()) && Guarded(list.List(), kend)
      requires k < |list.order| == |list.List()| && list.order[k] == slot
      requires list.List()[k].kind > REGION_IDENTITY_MAP && list.List()[k].base != 0xC000_1000
      modifies list, list.pool
      ensures list.Valid() && ListInv(list.List()) && Guarded(list.List(), kend)
      ensures list.List() == Without(old(list.List()), k)
    {
      WithoutKeeps(list.List(), k);
      WithoutGuarded(list.List(), kend, k);
      list.RemoveRegion(slot, k);
    }

    /**
     `vmm_unmap_region` on the kernel address space. Boot regions are refused by their kind, all but the MMIO
     region at 0xC0001000, which the caller must leave alone.
     */
    method UnmapRegion(vaddr: nat) returns (ok: bool, ghost k: nat)
      requires Valid() && vaddr != 0xC000_1000
      requires Unmappable(list.List(), vaddr) ==>
                 var r := list.List()[FirstAt(list.List(), vaddr)];
                 Owned(paging.View(), r.base / 4096, r.size / 4096) && ClearOfWindow(r.base / 4096, r.size / 4096)
      modifies paging, paging.pmm`usedFrames, paging.pmm.bitmap, list, list.pool
      ensures Valid() && k == FirstAt(old(list.List()), vaddr)
      ensures UnmapDid(old(paging.View()), paging.View(), old(list.List()), list.List(), vaddr, ok)
    {
      var slot;
      slot, k := list.FindAt(vaddr);
      if slot == -1 {
        return false, k;
      }
      ChainAt(list.pool[..], list.head, list.order, k);
      var region := list.pool[slot].region;
      assert region == list.List()[k] && region in list.List();
      if region.kind <= REGION_IDENTITY_MAP {
        return false, k;
      }
      ReleaseOwned(paging, region.base, region.size, region.base / 4096, region.size / 4096);
      RemoveFromList(slot, k);
      return true, k;
    }
  }

  /**
   How the mapping of `all` pages ends that has given frames to `done` of them, in terms of memory at the start. With
   all pages mapped it needs a slot of the region pool, `used` of which are taken.
   */
  ghost predicate MapEnds(m: Mem, page: nat, all: nat, done: nat, used: nat, r: MapResult) {
    && done <= all && Suffices(m, page, done)
    && match r
       case Done => done == all && used < VMM_MAX_REGIONS
       case RolledBack => if done == all then used >= VMM_MAX_REGIONS else EndsAfter(m, page, done, NoFrame)
       case Halted => done < all && EndsAfter(m, page, done, NoTableFrame)
       case Stopped => done < all && EndsAfter(m, page, done, TableTooHigh)
       case Refused => false
  }

  predicate Unmappable(rs: seq<Region>, vaddr: nat) {
    var k := FirstAt(rs, vaddr);
    k < |rs| && rs[k].kind > REGION_IDENTITY_MAP
  }

  /**
   What `vmm_map_region` does: refused if and only if misaligned or overlapping, with nothing touched; otherwise `done`
   pages get a frame each, memory is then `mid`, and how it ends from there decides whether the region is entered or
   everything but the page tables is given back.
   */
  ghost predicate MapDid(m: Mem, mid: Mem, m': Mem, rs: seq<Region>, rs': seq<Region>, used: nat, region: Region, r: MapResult, done: nat) {
    && (r.Refused? <==> (region.base % 4096 != 0 || region.size % 4096 != 0 ||
                         exists i :: 0 <= i < |rs| && Clashes(rs[i], region.base, region.size)))
    && (!r.Done? ==> rs' == rs)
    && (r.Refused? ==> m' == m)
    && (!r.Refused? ==>
          && MapEnds(m, region.base / 4096, region.size / 4096, done, used, r)
          && 4096 * done <= region.size && Grown(m, mid, region.base / 4096, done))
    && (r.Done? ==> rs' == Insert(rs, region) && m' == mid)
    && (r.RolledBack? ==> Undone(m, m', region.base / 4096, done))
  }

  lemma MapEndsWhole(m: Mem, page: nat, all: nat, done: nat, used: nat, r: MapResult)
    requires MapEnds(m, page, all, done, used, r)
    ensures done == all <==> Enough(m, page, all)
  {
    SufficesIsEnough(m, page, all);
    if done < all {
      SufficesNoMore(m, page, done + 1, all);
    }
  }

  /**
   When `vmm_map_region` succeeds, decided before the call: if and only if the range is aligned and free, the region pool
   has a slot left, and memory has a frame in reach for every page and for every table that is missing, with the tables
   below 4 MB. Short of frames it gives everything back, but for a page that has taken the last frame and needs a table.
   */
  lemma MapSucceeds(m: Mem, mid: Mem, m': Mem, rs: seq<Region>, rs': seq<Region>, used: nat, region: Region, r: MapResult, done: nat,
                    page: nat, all: nat)
    requires MapDid(m, mid, m', rs, rs', used, region, r, done) && page == region.base / 4096 && all == region.size / 4096
    ensures r.Done? <==>
            && region.base % 4096 == 0 && region.size % 4096 == 0
            && (forall i :: 0 <= i < |rs| ==> !Clashes(rs[i], region.base, region.size))
            && used < VMM_MAX_REGIONS && Enough(m, page, all)
    ensures r.RolledBack? ==> if Enough(m, page, all) then used >= VMM_MAX_REGIONS else Found(m) == done + TablesFor(m, page, done)
    ensures r.Halted? ==> !Enough(m, page, all) && NeedsTable(m, page, done) && Found(m) == done + TablesFor(m, page, done) + 1
  {
    if !r.Refused? {
      MapEndsWhole(m, page, all, done, used, r);
    }
  }

  /**
   What `vmm_unmap_region` does: nothing, if and only if there is no region at the address or it is protected;
   otherwise the first one there goes, with its pages and frames.
   */
  ghost predicate UnmapDid(m: Mem, m': Mem, rs: seq<Region>, rs': seq<Region>, vaddr: nat, ok: bool) {
    && (ok <==> Unmappable(rs, vaddr))
    && (!ok ==> m' == m && rs' == rs)
    && (ok ==>
          var k := FirstAt(rs, vaddr);
          rs' == Without(rs, k) && Freed(m, m', rs[k].base / 4096, rs[k].size / 4096))
  }

  /** When `vmm_unmap_region` succeeds, and which region goes: the first that starts at the address, unless protected. */
  lemma UnmapSucceeds(m: Mem, m': Mem, rs: seq<Region>, rs': seq<Region>, vaddr: nat, ok: bool)
    requires UnmapDid(m, m', rs, rs', vaddr, ok)
    ensures ok <==> exists k :: 0 <= k < |rs| && StartsAt(rs, vaddr, k) && rs[k].kind > 5
    ensures forall k :: 0 <= k < |rs| && ok && StartsAt(rs, vaddr, k) ==>
              rs' == rs[..k] + rs[k + 1..] && Freed(m, m', rs[k].base / 4096, rs[k].size / 4096)
  {
    var f := FirstAt(rs, vaddr);
    forall k | 0 <= k < |rs| && StartsAt(rs, vaddr, k) ensures k == f {
    }
    if f < |rs| {
      assert StartsAt(rs, vaddr, f);
      WithoutSlices(rs, f);
    }
  }

  /** Region `k` is the first of the list that starts at `vaddr`. */
  ghost predicate StartsAt(rs: seq<Region>, vaddr: nat, k: nat)
    requires k < |rs|
  {
    rs[k].base == vaddr && forall i :: 0 <= i < k ==> rs[i].base != vaddr
  }

  /** The pages of the range are gone and their frames clear again; nothing else has changed. */
  ghost predicate Freed(m: Mem, m': Mem, page: nat, n: nat) {
    && m'.flat == Drop(m.flat, page, n)
    && m'.tables == m.tables
    && m'.frames.clear == m.frames.clear + Behind(m.flat, page, n)
    && m'.frames.total == m.frames.total
  }

  lemma FreedFromUndone(m: Mem, m': Mem, page: nat, n: nat)
    requires Undone(Released(m, page, n), m', page, n) && m'.tables == m.tables
    ensures Freed(m, m', page, n)
  {
    DropTwice(m.flat, page, n);
  }

  lemma DropTwice(flat: map<nat, nat>, page: nat, n: nat)
    ensures Drop(Drop(flat, page, n), page, n) == Drop(flat, page, n)
  {
    forall p: nat
      ensures Lookup(Drop(Drop(flat, page, n), page, n), p) == Lookup(Drop(flat, page, n), p)
    {
      DropLookup(Drop(flat, page, n), page, n, p);
      DropLookup(flat, page, n, p);
    }
    LookupDecides(Drop(Drop(flat, page, n), page, n), Drop(flat, page, n));
  }

  lemma ReleasedFramesSane(m: Mem, page: nat, n: nat)
    requires Sane(m) && Owned(m, page, n)
    ensures FramesSane(Released(m, page, n))
  {
    forall f | f in Behind(m.flat, page, n) ensures 256 <= f < BITMAP_FRAMES && f !in m.tables {
      BehindMember(m.flat, page, n, f);
    }
  }

  lemma BootKinds(kend: nat, b: Region)
    requires 0xC010_0000 < kend <= 0xC040_0000 && b in BootRegions(kend)
    ensures b.kind <= REGION_IDENTITY_MAP || b.base == 0xC000_1000
  {
  }

  lemma WithoutGuarded(rs: seq<Region>, kend: nat, k: nat)
    requires Guarded(rs, kend) && k < |rs| && rs[k].kind > REGION_IDENTITY_MAP && rs[k].base != 0xC000_1000
    ensures Guarded(Without(rs, k), kend)
  {
    forall b | b in BootRegions(kend) ensures b in Without(rs, k) {
      BootKinds(kend, b);
      WithoutMember(rs, k, b);
    }
  }
}
