/** kernel/kheap.c: what every run of `kmalloc` and `kfree` keeps. */
module Heap {
  import opened Words
  import opened HeapBlocks

  const HEAP_START := 0xC040_0000
  const HEAP_MAX := 0xC140_0000
  const INITIAL_HEAP_SIZE := 0x10_0000

  /** The block list, the end of the heap and the allocation counter. */
  datatype HeapState = HeapState(blocks: seq<Block>, end: nat, total: nat)

  /** The blocks tile the heap in whole words, free neighbours are merged, and the counter is the sum of allocated sizes. */
  ghost predicate HeapInv(h: HeapState) {
    && h.blocks != [] && NoAdjacentFree(h.blocks) && WordSized(h.blocks)
    && HEAP_START + Span(h.blocks) == h.end <= HEAP_MAX && h.end % 4096 == 0
    && h.total == Allocated(h.blocks)
  }

  /** `(size + 7) & ~7`. */
  function Round8(size: nat): nat {
    Wrap(size + 7) / 8 * 8
  }

  /** `expand_size`: room for a block of `size` bytes and its header, in pages. */
  function GrowBy(size: nat): nat {
    PageAlign(Wrap(size + 12))
  }

  /** Requests for which none of the 32-bit sums in `kmalloc` and `heap_expand` wraps. */
  predicate Small(size: nat) {
    size <= 0x3E00_0000
  }

  function Grow(h: HeapState, n: nat): HeapState
    requires h.blocks != [] && n >= 12
  {
    h.(blocks := Extend(h.blocks, n), end := h.end + n)
  }

  /** The end of `kmalloc`: block `i` is split, marked and its payload returned. */
  function Give(h: HeapState, i: nat, size: nat): (HeapState, nat)
    requires i < |h.blocks| && size <= h.blocks[i].size
  {
    (h.(blocks := Allocate(h.blocks, i, size), total := h.total + GivenSize(h.blocks[i], size)),
     AddrOf(HEAP_START, h.blocks, i) + 12)
  }

  /** `kmalloc`; `grows` says whether frames for the new pages were found, 0 stands for NULL. */
  function Malloc(h: HeapState, size: nat, grows: bool): (HeapState, nat)
    requires h.blocks != [] && Small(size)
  {
    if size == 0 then (h, 0) else
    var s := Round8(size);
    var i := FirstFit(h.blocks, s);
    if i < |h.blocks| then Give(h, i, s)
    else if Wrap(h.end + GrowBy(s)) > HEAP_MAX || !grows then (h, 0)
    else
      var g := Grow(h, GrowBy(s));
      var j := FirstFit(g.blocks, s);
      if j < |g.blocks| then Give(g, j, s) else (g, 0)
  }

  /** `kfree`, on NULL or the payload of some block; a free block is a detected double free. */
  function Free(h: HeapState, ptr: nat): HeapState
    requires ptr == 0 || IndexAt(HEAP_START, h.blocks, ptr) < |h.blocks|
  {
    if ptr == 0 then h
    else
      var i := IndexAt(HEAP_START, h.blocks, ptr);
      if h.blocks[i].free then h
      else HeapState(Merge(Release(h.blocks, i)), h.end, Wrap(h.total - h.blocks[i].size))
  }

  /** The word at address `a`: a header word of the list, or else `data`. */
  function WordAt(h: HeapState, a: int, data: nat): nat {
    match HeaderWord(HEAP_START, h.blocks, a)
    case Some(w) => w
    case None => data
  }

  /**
   `kfree` on any word address. It takes the two words 12 and 8 bytes below `ptr` for a size and a free flag; where
   they are not in a header of the list they are `size` and `flag`, whatever that memory holds. Nothing is left to
   describe (`None`) once it has written into a header of which this is not the flag: that breaks the list.
   */
  function FreeAt(h: HeapState, ptr: nat, size: nat, flag: nat): Option<HeapState> {
    if ptr == 0 || WordAt(h, ptr - 8, flag) != 0 then Some(h)
    else if IndexAt(HEAP_START, h.blocks, ptr) < |h.blocks| then Some(Free(h, ptr))
    else if HeaderWord(HEAP_START, h.blocks, ptr - 8).Some? then None
    else Some(HeapState(Merge(h.blocks), h.end, Wrap(h.total - WordAt(h, ptr - 12, size))))
  }

  /** A call, with the words below the pointer that `kfree` will look at. */
  datatype Call = Kmalloc(size: nat, grows: bool) | Kfree(ptr: nat, below: nat, flag: nat)

  /** No request so large that a 32-bit sum wraps; pointers to words, and words of 32 bits. */
  predicate Fits(c: Call) {
    match c
    case Kmalloc(size, _) => Small(size)
    case Kfree(ptr, below, flag) => ptr % 4 == 0 && below < TWO32 && flag < TWO32
  }

  function Step(h: HeapState, c: Call): (r: Option<HeapState>)
    requires h.blocks != [] && Fits(c)
    ensures r.Some? ==> r.value.blocks != []
  {
    match c
    case Kmalloc(size, grows) => Some(Malloc(h, size, grows).0)
    case Kfree(ptr, below, flag) =>
      MergeKeeps(h.blocks);
      var i := IndexAt(HEAP_START, h.blocks, ptr);
      if i < |h.blocks| then
        MergeKeeps(Release(h.blocks, i));
        FreeAt(h, ptr, below, flag)
      else FreeAt(h, ptr, below, flag)
  }

  ghost function LiveIn(h: HeapState): map<nat, nat> {
    Live(HEAP_START, h.blocks)
  }

  lemma EightsAreWords(q: nat)
    ensures q * 8 % 4 == 0
  {
    assert q * 8 == 4 * (2 * q);
  }

  lemma PagesAreWords(n: nat)
    requires n % 4096 == 0
    ensures n % 4 == 0
  {
    assert n == 4 * (1024 * (n / 4096));
  }

  lemma SmallSums(size: nat)
    requires Small(size)
    ensures size <= Round8(size) < size + 8 && Round8(size) % 8 == 0 && Round8(size) % 4 == 0
    ensures Round8(size) + 12 <= GrowBy(Round8(size)) < size + 8 + 12 + 4096 && GrowBy(Round8(size)) % 4096 == 0
  {
    assert Wrap(size + 7) == size + 7;
    var s := Round8(size);
    assert size <= s < size + 8;
    EightsAreWords((size + 7) / 8);
    assert Wrap(s + 12) == s + 12 && Wrap(s + 12 + 4095) == s + 12 + 4095;
  }

  lemma GrowInv(h: HeapState, n: nat)
    requires HeapInv(h) && n > 12 && n % 4096 == 0 && h.end + n <= HEAP_MAX
    ensures HeapInv(Grow(h, n)) && LiveIn(Grow(h, n)) == LiveIn(h)
  {
    PagesAreWords(n);
    ExtendKeeps(h.blocks, n);
    ExtendWords(h.blocks, n);
    ExtendLive(HEAP_START, h.blocks, n);
  }

  /** One more live payload, of at least the size asked for, at an address where nothing was live. */
  lemma GiveInv(h: HeapState, i: nat, size: nat)
    requires HeapInv(h) && i < |h.blocks| && h.blocks[i].free && 0 < size <= h.blocks[i].size && size % 4 == 0
    ensures var (h', ptr) := Give(h, i, size);
            && HeapInv(h') && ptr > HEAP_START && ptr !in LiveIn(h)
            && LiveIn(h') == LiveIn(h)[ptr := GivenSize(h.blocks[i], size)] && GivenSize(h.blocks[i], size) >= size
  {
    AllocateKeeps(h.blocks, i, size);
    AllocateSeparates(h.blocks, i, size);
    AllocateWords(h.blocks, i, size);
    AllocateLive(HEAP_START, h.blocks, i, size);
    AddrBounds(HEAP_START, h.blocks, i);
  }

  /** After a successful expansion the second search always succeeds, so `kmalloc` fails only for want of room or frames. */
  lemma MallocFailsOnly(h: HeapState, size: nat, grows: bool)
    requires HeapInv(h) && Small(size)
    ensures Malloc(h, size, grows).1 == 0 <==>
            || size == 0
            || (FirstFit(h.blocks, Round8(size)) == |h.blocks| && (h.end + GrowBy(Round8(size)) > HEAP_MAX || !grows))
    ensures Malloc(h, size, grows).1 == 0 ==> Malloc(h, size, grows).0 == h
  {
    SmallSums(size);
    if size > 0 && FirstFit(h.blocks, Round8(size)) == |h.blocks| {
      ExtendFits(h.blocks, GrowBy(Round8(size)), Round8(size));
    }
  }

  lemma MallocInv(h: HeapState, size: nat, grows: bool)
    requires HeapInv(h) && Small(size)
    ensures var (h', ptr) := Malloc(h, size, grows);
            && HeapInv(h')
            && (ptr == 0 ==> LiveIn(h') == LiveIn(h))
            && (ptr != 0 ==> ptr !in LiveIn(h) && ptr in LiveIn(h') && LiveIn(h') == LiveIn(h)[ptr := LiveIn(h')[ptr]]
                             && LiveIn(h')[ptr] >= size)
  {
    SmallSums(size);
    MallocFailsOnly(h, size, grows);
    if Malloc(h, size, grows).1 != 0 {
      var s := Round8(size);
      var i := FirstFit(h.blocks, s);
      if i < |h.blocks| {
        GiveInv(h, i, s);
      } else {
        GrowInv(h, GrowBy(s));
        var g := Grow(h, GrowBy(s));
        GiveInv(g, FirstFit(g.blocks, s), s);
      }
    }
  }

  lemma LiveIndex(start: nat, bs: seq<Block>, ptr: nat)
    requires ptr in Live(start, bs)
    ensures IndexAt(start, bs, ptr) < |bs| && !bs[IndexAt(start, bs, ptr)].free && bs[IndexAt(start, bs, ptr)].size == Live(start, bs)[ptr]
    decreases bs
  {
    if ptr != start + 12 {
      LiveIndex(start + 12 + bs[0].size, bs[1..], ptr);
    } else if bs[0].free {
      LiveInside(start + 12 + bs[0].size, bs[1..], ptr);
    } else {
      assert Live(start, bs)[ptr] == bs[0].size;
    }
  }

  lemma AllocatedBound(bs: seq<Block>, i: nat)
    requires i < |bs| && !bs[i].free
    ensures bs[i].size <= Allocated(bs)
  {
    if i > 0 {
      AllocatedBound(bs[1..], i - 1);
    }
  }

  /** Freeing takes exactly the payload at `ptr` out of the live ones, and nothing when none is live there. */
  lemma FreeInv(h: HeapState, ptr: nat)
    requires HeapInv(h) && (ptr == 0 || IndexAt(HEAP_START, h.blocks, ptr) < |h.blocks|)
    ensures HeapInv(Free(h, ptr)) && LiveIn(Free(h, ptr)) == LiveIn(h) - {ptr}
  {
    if ptr in LiveIn(h) {
      LiveInside(HEAP_START, h.blocks, ptr);
    }
    if ptr != 0 {
      var i := IndexAt(HEAP_START, h.blocks, ptr);
      if !h.blocks[i].free {
        AllocatedBound(h.blocks, i);
        FreeCountsHeaders(h.blocks);
        AddrOfIndex(HEAP_START, h.blocks, ptr);
        ReleaseLive(HEAP_START, h.blocks, i);
        ReleaseWords(h.blocks, i);
        MergeKeeps(Release(h.blocks, i));
        MergeWords(Release(h.blocks, i));
        MergeLive(HEAP_START, Release(h.blocks, i));
      } else if ptr in LiveIn(h) {
        LiveIndex(HEAP_START, h.blocks, ptr);
      }
    }
  }

  ghost predicate Kept(o: Option<HeapState>) {
    o.Some? && HeapInv(o.value)
  }

  /**
   What a caller of `kfree` has to make sure of: that the pointer is NULL or a payload, or that the words taken for
   its header say "free" or, outside the list's headers, name no size.
   */
  predicate Harmless(h: HeapState, ptr: nat, size: nat, flag: nat) {
    || ptr == 0
    || IndexAt(HEAP_START, h.blocks, ptr) < |h.blocks|
    || WordAt(h, ptr - 8, flag) != 0
    || (HeaderWord(HEAP_START, h.blocks, ptr - 8).None? && WordAt(h, ptr - 12, size) == 0)
  }

  lemma WordAtBound(h: HeapState, a: int, data: nat)
    requires HeapInv(h) && data < TWO32
    ensures WordAt(h, a, data) < TWO32
  {
    if HeaderWord(HEAP_START, h.blocks, a).Some? {
      HeaderWordBound(HEAP_START, h.blocks, a);
    }
  }

  /** Nothing is live at a pointer that is no block. */
  lemma NotLive(h: HeapState, ptr: nat)
    requires IndexAt(HEAP_START, h.blocks, ptr) == |h.blocks|
    ensures LiveIn(h) - {ptr} == LiveIn(h)
  {
    if ptr in LiveIn(h) {
      LiveIndex(HEAP_START, h.blocks, ptr);
    }
  }

  /** Whatever the pointer, `kfree` keeps the heap invariant if and only if the call is harmless. */
  lemma KfreeKeeps(h: HeapState, ptr: nat, size: nat, flag: nat)
    requires HeapInv(h) && Fits(Kfree(ptr, size, flag))
    ensures Kept(FreeAt(h, ptr, size, flag)) <==> Harmless(h, ptr, size, flag)
    ensures Harmless(h, ptr, size, flag) ==> LiveIn(FreeAt(h, ptr, size, flag).value) == LiveIn(h) - {ptr}
  {
    MergeNothing(h.blocks);
    FreeCountsHeaders(h.blocks);
    WordAtBound(h, ptr - 12, size);
    if ptr != 0 && IndexAt(HEAP_START, h.blocks, ptr) < |h.blocks| {
      HeaderOf(HEAP_START, h.blocks, ptr);
      FreeInv(h, ptr);
    } else if ptr == 0 {
      assert 0 !in LiveIn(h) by {
        if 0 in LiveIn(h) {
          LiveInside(HEAP_START, h.blocks, 0);
        }
      }
    } else {
      NotLive(h, ptr);
      CountOff(h.total, WordAt(h, ptr - 12, size));
    }
  }

  /** In 32 bits, taking off a word leaves the counter as it was only when the word is 0. */
  lemma CountOff(total: nat, w: nat)
    requires total < TWO32 && w < TWO32
    ensures Wrap(total - w) == total <==> w == 0
  {
    assert total < w ==> Wrap(total - w) == total - w + TWO32;
  }

  // ---- Whole runs ----

  ghost function Run(h: HeapState, calls: seq<Call>): (r: Option<HeapState>)
    requires h.blocks != [] && forall c :: c in calls ==> Fits(c)
    ensures r.Some? ==> r.value.blocks != []
  {
    if calls == [] then Some(h)
    else
      match Run(h, calls[..|calls| - 1])
      case None => None
      case Some(before) => Step(before, calls[|calls| - 1])
  }

  /** The call at the end of `calls` is harmless in the state it meets. */
  ghost predicate LastHarmless(h: HeapState, calls: seq<Call>)
    requires h.blocks != [] && calls != [] && forall c :: c in calls ==> Fits(c)
  {
    match calls[|calls| - 1]
    case Kmalloc(_, _) => true
    case Kfree(ptr, below, flag) =>
      var before := Run(h, calls[..|calls| - 1]);
      before.Some? && Harmless(before.value, ptr, below, flag)
  }

  /** Every call of the run is harmless where it happens. */
  ghost predicate Disciplined(h: HeapState, calls: seq<Call>)
    requires h.blocks != [] && forall c :: c in calls ==> Fits(c)
  {
    forall k :: 0 < k <= |calls| ==> LastHarmless(h, calls[..k])
  }

  lemma StepInv(h: HeapState, c: Call)
    requires HeapInv(h) && Fits(c)
    ensures Kept(Step(h, c)) <==> c.Kmalloc? || Harmless(h, c.ptr, c.below, c.flag)
  {
    match c
    case Kmalloc(size, grows) => MallocInv(h, size, grows);
    case Kfree(ptr, below, flag) => KfreeKeeps(h, ptr, below, flag);
  }

  lemma RunStep(h: HeapState, calls: seq<Call>)
    requires HeapInv(h) && calls != [] && forall c :: c in calls ==> Fits(c)
    requires Kept(Run(h, calls[..|calls| - 1]))
    ensures Kept(Run(h, calls)) <==> LastHarmless(h, calls)
  {
    StepInv(Run(h, calls[..|calls| - 1]).value, calls[|calls| - 1]);
  }

  lemma {:induction false} DisciplinedKeeps(h: HeapState, calls: seq<Call>, k: nat)
    requires HeapInv(h) && (forall c :: c in calls ==> Fits(c)) && Disciplined(h, calls) && k <= |calls|
    ensures Kept(Run(h, calls[..k]))
  {
    if k > 0 {
      DisciplinedKeeps(h, calls, k - 1);
      assert calls[..k][..k - 1] == calls[..k - 1];
      RunStep(h, calls[..k]);
    }
  }

  /** A run keeps the heap invariant at every step if and only if each of its calls is harmless where it happens. */
  lemma RunKeeps(h: HeapState, calls: seq<Call>)
    requires HeapInv(h) && forall c :: c in calls ==> Fits(c)
    ensures (forall k :: 0 <= k <= |calls| ==> Kept(Run(h, calls[..k]))) <==> Disciplined(h, calls)
  {
    if Disciplined(h, calls) {
      forall k | 0 <= k <= |calls| ensures Kept(Run(h, calls[..k])) {
        DisciplinedKeeps(h, calls, k);
      }
    }
    if forall k :: 0 <= k <= |calls| ==> Kept(Run(h, calls[..k])) {
      forall k | 0 < k <= |calls| ensures LastHarmless(h, calls[..k]) {
        assert calls[..k][..k - 1] == calls[..k - 1];
        assert Kept(Run(h, calls[..k - 1])) && Kept(Run(h, calls[..k]));
        RunStep(h, calls[..k]);
      }
    }
  }

  /** `kheap_init` leaves one free block. */
  function InitialHeap(): HeapState {
    HeapState([Block(INITIAL_HEAP_SIZE - 12, true)], HEAP_START + INITIAL_HEAP_SIZE, 0)
  }

  lemma InitialInv()
    ensures HeapInv(InitialHeap()) && LiveIn(InitialHeap()) == map[]
  {
    assert InitialHeap().blocks[1..] == [];
  }

  /**
   In every run from boot whose calls are harmless where they happen, and in no other, every state is one where the
   blocks tile the heap, no two neighbours are free, the counter is right and payloads are apart.
   */
  lemma HeapInvForever(calls: seq<Call>)
    requires forall c :: c in calls ==> Fits(c)
    ensures (forall k :: 0 <= k <= |calls| ==> Tiled(Run(InitialHeap(), calls[..k]))) <==> Disciplined(InitialHeap(), calls)
  {
    InitialInv();
    RunKeeps(InitialHeap(), calls);
    forall k | 0 <= k <= |calls| ensures Tiled(Run(InitialHeap(), calls[..k])) <==> Kept(Run(InitialHeap(), calls[..k])) {
      TiledIsKept(Run(InitialHeap(), calls[..k]));
    }
    assert (forall k :: 0 <= k <= |calls| ==> Tiled(Run(InitialHeap(), calls[..k]))) <==>
           (forall k :: 0 <= k <= |calls| ==> Kept(Run(InitialHeap(), calls[..k])));
  }

  /** The heap as its statistics and its walks assume it to be. */
  ghost predicate Tiled(o: Option<HeapState>) {
    && o.Some?
    && o.value.blocks != [] && NoAdjacentFree(o.value.blocks) && WordSized(o.value.blocks)
    && HEAP_START + Span(o.value.blocks) == o.value.end <= HEAP_MAX && o.value.end % 4096 == 0
    && o.value.total == Allocated(o.value.blocks)
    && (forall p, q :: p in LiveIn(o.value) && q in LiveIn(o.value) && p < q ==> p + LiveIn(o.value)[p] + 12 <= q)
  }

  lemma TiledIsKept(o: Option<HeapState>)
    ensures Tiled(o) <==> Kept(o)
  {
    if Kept(o) {
      forall p, q | p in LiveIn(o.value) && q in LiveIn(o.value) && p < q ensures p + LiveIn(o.value)[p] + 12 <= q {
        LiveApart(HEAP_START, o.value.blocks, p, q);
      }
    }
  }

  /** A live payload is neither moved nor resized by any run of harmless calls that does not free it. */
  lemma {:induction false} PayloadStays(h: HeapState, calls: seq<Call>, p: nat, k: nat)
    requires HeapInv(h) && (forall c :: c in calls ==> Fits(c)) && Disciplined(h, calls) && k <= |calls|
    requires p in LiveIn(h) && forall c :: c in calls && c.Kfree? ==> c.ptr != p
    ensures Kept(Run(h, calls[..k])) && p in LiveIn(Run(h, calls[..k]).value)
    ensures LiveIn(Run(h, calls[..k]).value)[p] == LiveIn(h)[p]
  {
    DisciplinedKeeps(h, calls, k);
    if k > 0 {
      PayloadStays(h, calls, p, k - 1);
      assert calls[..k][..k - 1] == calls[..k - 1];
      PayloadStep(Run(h, calls[..k - 1]).value, calls[k - 1], p);
    }
  }

  lemma PayloadStep(h: HeapState, c: Call, p: nat)
    requires HeapInv(h) && Fits(c) && p in LiveIn(h) && Kept(Step(h, c)) && (c.Kfree? ==> c.ptr != p)
    ensures p in LiveIn(Step(h, c).value) && LiveIn(Step(h, c).value)[p] == LiveIn(h)[p]
  {
    match c
    case Kmalloc(size, grows) => MallocInv(h, size, grows);
    case Kfree(ptr, below, flag) => KfreeKeeps(h, ptr, below, flag);
  }

  /** `kfree(kmalloc(n))` gives back the very heap, or the heap as growing alone leaves it. */
  lemma FreeUndoesMalloc(h: HeapState, size: nat, grows: bool, below: nat, flag: nat)
    requires HeapInv(h) && Small(size) && Malloc(h, size, grows).1 != 0
    ensures var (h', ptr) := Malloc(h, size, grows);
            FreeAt(h', ptr, below, flag) ==
            Some(if FirstFit(h.blocks, Round8(size)) < |h.blocks| then h else Grow(h, GrowBy(Round8(size))))
  {
    SmallSums(size);
    MallocFailsOnly(h, size, grows);
    var s := Round8(size);
    var i := FirstFit(h.blocks, s);
    if i < |h.blocks| {
      FreeUndoesGive(h, i, s, below, flag);
    } else {
      GrowInv(h, GrowBy(s));
      var g := Grow(h, GrowBy(s));
      FreeUndoesGive(g, FirstFit(g.blocks, s), s, below, flag);
    }
  }

  lemma FreeUndoesGive(h: HeapState, i: nat, size: nat, below: nat, flag: nat)
    requires HeapInv(h) && i < |h.blocks| && h.blocks[i].free && size <= h.blocks[i].size
    ensures FreeAt(Give(h, i, size).0, Give(h, i, size).1, below, flag) == Some(h)
  {
    var (h', ptr) := Give(h, i, size);
    AllocateKeeps(h.blocks, i, size);
    RoundTrip(h.blocks, i, size);
    AddrKept(HEAP_START, h.blocks, i, size);
    IndexAtAddr(HEAP_START, h'.blocks, i);
    HeaderOf(HEAP_START, h'.blocks, ptr);
    FreeCountsHeaders(h.blocks);
    AddrBounds(HEAP_START, h.blocks, i);
  }

  lemma {:induction false} AddrKept(start: nat, bs: seq<Block>, i: nat, size: nat)
    requires i < |bs| && bs[i].free && size <= bs[i].size
    ensures i < |Allocate(bs, i, size)| && AddrOf(start, Allocate(bs, i, size), i) == AddrOf(start, bs, i)
    decreases bs
  {
    AllocateKeeps(bs, i, size);
    if i > 0 {
      AddrKept(start + 12 + bs[0].size, bs[1..], i - 1, size);
      assert Allocate(bs, i, size)[1..] == Allocate(bs[1..], i - 1, size);
    }
  }

  /** Once every allocation is freed, the heap is one free block of everything but its header. */
  lemma AllFreed(h: HeapState)
    requires HeapInv(h) && LiveIn(h) == map[]
    ensures h.blocks == [Block(h.end - HEAP_START - 12, true)] && h.total == 0
  {
    forall i | 0 <= i < |h.blocks| ensures h.blocks[i].free {
      if !h.blocks[i].free {
        ReleaseLive(HEAP_START, h.blocks, i);
        assert false;
      }
    }
    AllFreeIsOne(h.blocks);
    assert h.blocks[1..] == [] && Allocated(h.blocks[1..]) == 0;
  }

  /** What `kmalloc_aligned` returns for the payload at `ptr`. */
  function Aligned(ptr: nat): nat {
    PageAlign(ptr)
  }

  /** The aligned range lies inside its own payload, so aligned ranges of different payloads never meet. */
  lemma AlignedInside(h: HeapState, size: nat, grows: bool)
    requires HeapInv(h) && Small(size + 4096) && Malloc(h, size + 4096, grows).1 != 0
    ensures var (h', ptr) := Malloc(h, size + 4096, grows);
            && ptr in LiveIn(h') && Aligned(ptr) % 4096 == 0
            && ptr <= Aligned(ptr) && Aligned(ptr) + size <= ptr + LiveIn(h')[ptr]
  {
    var (h', ptr) := Malloc(h, size + 4096, grows);
    MallocInv(h, size + 4096, grows);
    LiveInside(HEAP_START, h'.blocks, ptr);
    assert ptr + 4095 < TWO32;
  }

  /** Kernel stacks, allocated this way for different processes, are disjoint. */
  lemma AlignedRangesDisjoint(h: HeapState, p: nat, q: nat, size: nat)
    requires HeapInv(h) && p in LiveIn(h) && q in LiveIn(h) && p < q
    requires size + 4096 <= LiveIn(h)[p] && size + 4096 <= LiveIn(h)[q]
    ensures Aligned(p) + size <= Aligned(q)
  {
    LiveApart(HEAP_START, h.blocks, p, q);
    LiveInside(HEAP_START, h.blocks, q);
    assert Aligned(p) < p + 4096 && q <= Aligned(q);
  }

  /** Freeing an aligned pointer finds a block exactly when the payload was aligned to begin with. */
  lemma AlignedFreeFindsBlock(h: HeapState, ptr: nat)
    requires HeapInv(h) && ptr in LiveIn(h) && LiveIn(h)[ptr] >= 4096
    ensures IndexAt(HEAP_START, h.blocks, Aligned(ptr)) < |h.blocks| <==> Aligned(ptr) == ptr
  {
    LiveInside(HEAP_START, h.blocks, ptr);
    LiveIndex(HEAP_START, h.blocks, ptr);
    assert ptr <= Aligned(ptr) < ptr + 4096;
    if Aligned(ptr) != ptr {
      InsidePayload(HEAP_START, h.blocks, ptr, Aligned(ptr));
    }
  }

  /** No block starts inside the payload of another. */
  lemma {:induction false} InsidePayload(start: nat, bs: seq<Block>, ptr: nat, q: nat)
    requires ptr in Live(start, bs) && ptr < q < ptr + 12 + Live(start, bs)[ptr]
    ensures IndexAt(start, bs, q) == |bs|
    decreases bs
  {
    var next := start + 12 + bs[0].size;
    if !bs[0].free && ptr == start + 12 {
      IndexAbove(next, bs[1..], q);
    } else {
      LiveInside(next, bs[1..], ptr);
      InsidePayload(next, bs[1..], ptr, q);
    }
  }

  lemma {:induction false} IndexAbove(start: nat, bs: seq<Block>, q: nat)
    requires q < start + 12
    ensures IndexAt(start, bs, q) == |bs|
    decreases bs
  {
    if bs != [] {
      IndexAbove(start + 12 + bs[0].size, bs[1..], q);
    }
  }

  /** No header word lies inside a live payload. */
  lemma {:induction false} PayloadNoHeader(start: nat, bs: seq<Block>, ptr: nat, a: nat)
    requires ptr in Live(start, bs) && ptr <= a < ptr + Live(start, bs)[ptr]
    ensures HeaderWord(start, bs, a) == None
    decreases bs
  {
    var next := start + 12 + bs[0].size;
    if !bs[0].free && ptr == start + 12 {
      HeaderWordAbove(next, bs[1..], a);
    } else {
      LiveInside(next, bs[1..], ptr);
      PayloadNoHeader(next, bs[1..], ptr, a);
    }
  }

  /**
   `process_free` hands `kfree` the aligned address of a stack. Unless the payload was aligned to begin with, that
   frees nothing. The two words below the aligned address are the payload's own, or the block's link and the payload's
   first word, or the block's flag and link; accordingly the heap invariant survives if and only if the second word is
   not 0 or the first is, the payload's first word is not 0 or the block is the last, or the block is not the last.
   */
  lemma AlignedFree(h: HeapState, ptr: nat, below: nat, flag: nat)
    requires HeapInv(h) && ptr in LiveIn(h) && LiveIn(h)[ptr] >= 4096 && Aligned(ptr) != ptr
    requires Fits(Kfree(Aligned(ptr), below, flag))
    ensures FreeAt(h, Aligned(ptr), below, flag).Some? ==> LiveIn(FreeAt(h, Aligned(ptr), below, flag).value) == LiveIn(h)
    ensures var last := IndexAt(HEAP_START, h.blocks, ptr) == |h.blocks| - 1;
            Kept(FreeAt(h, Aligned(ptr), below, flag)) <==>
            if Aligned(ptr) >= ptr + 12 then flag != 0 || below == 0
            else if Aligned(ptr) == ptr + 8 then flag != 0 || last
            else !last
  {
    AlignedFreeFindsBlock(h, ptr);
    KfreeKeeps(h, Aligned(ptr), below, flag);
    MergeNothing(h.blocks);
    LiveInside(HEAP_START, h.blocks, ptr);
    assert ptr <= Aligned(ptr) < ptr + 4096;
    WordsBelow(h, ptr, Aligned(ptr), below, flag);
  }

  /** What `kfree` finds below an address in a live payload. */
  lemma WordsBelow(h: HeapState, ptr: nat, q: nat, below: nat, flag: nat)
    requires HeapInv(h) && ptr in LiveIn(h) && ptr < q < ptr + LiveIn(h)[ptr] && q % 4 == 0
    requires IndexAt(HEAP_START, h.blocks, q) == |h.blocks|
    ensures var last := IndexAt(HEAP_START, h.blocks, ptr) == |h.blocks| - 1;
            Harmless(h, q, below, flag) <==>
            if q >= ptr + 12 then flag != 0 || below == 0 else if q == ptr + 8 then flag != 0 || last else !last
  {
    LiveOnWords(HEAP_START, h.blocks, ptr);
    if q >= ptr + 12 {
      PayloadNoHeader(HEAP_START, h.blocks, ptr, q - 8);
      PayloadNoHeader(HEAP_START, h.blocks, ptr, q - 12);
    } else {
      LiveIndex(HEAP_START, h.blocks, ptr);
      LinkOf(HEAP_START, h.blocks, ptr);
      if q == ptr + 8 {
        PayloadNoHeader(HEAP_START, h.blocks, ptr, ptr);
      }
    }
  }

  /** Payloads of a word-sized list lie on word boundaries. */
  lemma {:induction false} LiveOnWords(start: nat, bs: seq<Block>, ptr: nat)
    requires WordSized(bs) && start % 4 == 0 && ptr in Live(start, bs)
    ensures ptr % 4 == 0
    decreases bs
  {
    if bs[0].free || ptr != start + 12 {
      LiveOnWords(start + 12 + bs[0].size, bs[1..], ptr);
    }
  }

  /** The first kernel stack: its address is no block, and freeing it with an 8 below it puts the counter out. */
  lemma FirstStackMiscounts()
    ensures var (h, ptr) := Malloc(InitialHeap(), 0x3000, false);
            && ptr == 0xC040_000C && Aligned(ptr) == 0xC040_1000 && IndexAt(HEAP_START, h.blocks, Aligned(ptr)) == |h.blocks|
            && FreeAt(h, Aligned(ptr), 8, 0) == Some(h.(total := 0x2FF8)) && h.total == 0x3000
  {
    var (h, ptr) := Malloc(InitialHeap(), 0x3000, false);
    InitialInv();
    MallocInv(InitialHeap(), 0x3000, false);
    assert Round8(0x3000) == 0x3000;
    assert h.blocks == [Block(0x3000, false), Block(INITIAL_HEAP_SIZE - 0x3000 - 24, true)];
    assert LiveIn(h)[ptr] == 0x3000;
    AlignedFreeFindsBlock(h, ptr);
    MergeNothing(h.blocks);
    PayloadNoHeader(HEAP_START, h.blocks, ptr, Aligned(ptr) - 8);
    PayloadNoHeader(HEAP_START, h.blocks, ptr, Aligned(ptr) - 12);
  }

  /** A pointer 4 bytes past the last payload makes `kfree` take that block's empty link for a flag, and overwrite it. */
  lemma LinkOverwritten(below: nat, flag: nat)
    ensures FreeAt(InitialHeap(), 0xC040_0010, below, flag) == None
  {
    assert InitialHeap().blocks[1..] == [];
  }

  /** A request found a block covers exactly the sizes whose rounding to 8 does not wrap. */
  lemma FitCovers(h: HeapState, size: nat)
    requires HeapInv(h) && 0 < size < TWO32 && FirstFit(h.blocks, Round8(size)) < |h.blocks|
    ensures GivenSize(h.blocks[FirstFit(h.blocks, Round8(size))], Round8(size)) >= size <==> size <= 0xFFFF_FFF8
  {
    var b := h.blocks[FirstFit(h.blocks, Round8(size))];
    SizeInHeap(h.blocks, FirstFit(h.blocks, Round8(size)));
    if size <= 0xFFFF_FFF8 {
      assert Wrap(size + 7) == size + 7;
    } else {
      assert Wrap(size + 7) == size + 7 - TWO32 < 8;
    }
  }

  lemma SizeInHeap(bs: seq<Block>, i: nat)
    requires i < |bs|
    ensures bs[i].size <= Span(bs)
  {
    if i > 0 {
      SizeInHeap(bs[1..], i - 1);
    }
  }

  /** A request for 4 GB less one byte is rounded to 0 and answered with the first free block, of which it gets nothing. */
  lemma HugeRequestWraps()
    ensures Round8(0xFFFF_FFFF) == 0 && FirstFit(InitialHeap().blocks, 0) == 0
    ensures Give(InitialHeap(), 0, 0).1 == 0xC040_000C && GivenSize(InitialHeap().blocks[0], 0) == 0
  {
    assert Wrap(0xFFFF_FFFF + 7) == 6;
  }

  /** The limit check of `heap_expand` is right exactly where its 32-bit sum does not wrap back below the limit. */
  lemma LimitCheckIsExact(end: nat, n: nat)
    requires HEAP_START <= end <= HEAP_MAX && n < TWO32
    ensures (Wrap(end + n) > HEAP_MAX <==> end + n > HEAP_MAX) <==> (end + n < TWO32 || end + n - TWO32 > HEAP_MAX)
  {
    assert Wrap(end + n) == if end + n < TWO32 then end + n else end + n - TWO32;
  }

  /** After boot a request for 0x3FAFFFF0 bytes passes the check: heap end and growth add up to 4 GB, so to 0. */
  lemma LimitCheckWraps()
    ensures var s := Round8(0x3FAF_FFF0);
            && FirstFit(InitialHeap().blocks, s) == |InitialHeap().blocks| && GrowBy(s) == 0x3FB0_0000
            && Wrap(InitialHeap().end + GrowBy(s)) == 0 && InitialHeap().end + GrowBy(s) > HEAP_MAX
  {
    assert InitialHeap().blocks[1..] == [];
    assert Round8(0x3FAF_FFF0) == 0x3FAF_FFF0 && GrowBy(0x3FAF_FFF0) == 0x3FB0_0000;
  }
}
