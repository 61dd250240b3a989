/** How many frames a range of pages takes: one for each page, and one for each page table that is missing. */
module FrameDemand {
  import opened Words
  import opened Pmm
  import opened Paging

  /** How many frames of a set lie below `bound`. */
  function CountBelow(clear: set<nat>, bound: nat): nat {
    if bound == 0 then 0 else CountBelow(clear, bound - 1) + if bound - 1 in clear then 1 else 0
  }

  /** How many clear frames the allocator finds. */
  function Found(m: Mem): nat {
    CountBelow(m.frames.clear, Reach(m.frames.total))
  }

  /** Page tables lie below 4 MB, and below what the allocator scans. */
  function TableBound(total: nat): nat {
    if Reach(total) < 1024 then Reach(total) else 1024
  }

  /** How many clear frames it finds that may be page tables. */
  function FoundLow(m: Mem): nat {
    CountBelow(m.frames.clear, TableBound(m.frames.total))
  }

  /** Page number `j` of a range from `page` on is the first in a directory slot that has no table. */
  predicate NeedsTable(m: Mem, page: nat, j: nat) {
    (page + j) / 1024 !in m.slots && (j == 0 || (page + j) % 1024 == 0)
  }

  /** The tables that mapping the pages `[page, page + n)` has to make. */
  function TablesFor(m: Mem, page: nat, n: nat): nat {
    if n == 0 then 0 else TablesFor(m, page, n - 1) + if NeedsTable(m, page, n - 1) then 1 else 0
  }

  /** The directory slots of the pages `[page, page + n)`. */
  function SlotsOf(page: nat, n: nat): set<nat> {
    if n == 0 then {} else SlotsOf(page, n - 1) + {(page + n - 1) / 1024}
  }

  lemma {:induction false} SlotsMember(page: nat, n: nat, i: nat)
    ensures i in SlotsOf(page, n) <==> exists p: nat :: page <= p < page + n && p / 1024 == i
  {
    if n > 0 {
      SlotsMember(page, n - 1, i);
      if i == (page + n - 1) / 1024 {
        assert page <= page + n - 1 < page + n && (page + n - 1) / 1024 == i;
      }
    }
  }

  /** A page needs a table exactly if neither the directory nor the pages before it brought one. */
  lemma NeedsNew(m: Mem, page: nat, n: nat)
    ensures NeedsTable(m, page, n) <==> (page + n) / 1024 !in m.slots + SlotsOf(page, n)
  {
    var i := (page + n) / 1024;
    SlotsMember(page, n, i);
    if n > 0 && (page + n) % 1024 != 0 {
      assert (page + n - 1) / 1024 == i;
    }
  }

  lemma TablesStep(m: Mem, page: nat, n: nat, these: set<nat>)
    requires these == SlotsOf(page, n) && TablesFor(m, page, n) == |these - m.slots|
    ensures TablesFor(m, page, n + 1) == |SlotsOf(page, n + 1) - m.slots|
  {
    NeedsNew(m, page, n);
    OneMoreSlot(these, m.slots, (page + n) / 1024);
    assert SlotsOf(page, n + 1) == these + {(page + n) / 1024};
  }

  /** One table for each slot of the range that has none. */
  lemma {:induction false} TablesAreSlots(m: Mem, page: nat, n: nat)
    ensures TablesFor(m, page, n) == |SlotsOf(page, n) - m.slots|
  {
    if n == 0 {
      assert SlotsOf(page, 0) - m.slots == {};
    } else {
      TablesAreSlots(m, page, n - 1);
      TablesStep(m, page, n - 1, SlotsOf(page, n - 1));
    }
  }

  lemma OneMoreSlot(these: set<nat>, those: set<nat>, i: nat)
    ensures |these + {i} - those| == |these - those| + if i in those + these then 0 else 1
  {
    if i in those + these {
      assert these + {i} - those == these - those;
    } else {
      assert these + {i} - those == (these - those) + {i};
    }
  }

  /**
   Memory suffices for `n` pages from `page` on: there is a frame for every page and every missing table, and each
   table, which takes the frame after that of its page, gets one below 4 MB.
   */
  ghost predicate Enough(m: Mem, page: nat, n: nat) {
    && n + TablesFor(m, page, n) <= Found(m)
    && forall j: nat :: j < n && NeedsTable(m, page, j) ==> j + 1 + TablesFor(m, page, j + 1) <= FoundLow(m)
  }

  /** There is a frame for page number `n` once the pages before it have theirs, and one for its table. */
  ghost predicate OneMoreFits(m: Mem, page: nat, n: nat) {
    if NeedsTable(m, page, n) then n + TablesFor(m, page, n) + 2 <= Found(m) && n + TablesFor(m, page, n) + 2 <= FoundLow(m)
    else n + TablesFor(m, page, n) + 1 <= Found(m)
  }

  /** The same as `Enough`, page by page. */
  ghost predicate Suffices(m: Mem, page: nat, n: nat) {
    n == 0 || (Suffices(m, page, n - 1) && OneMoreFits(m, page, n - 1))
  }

  lemma SufficesBound(m: Mem, page: nat, n: nat)
    requires Suffices(m, page, n)
    ensures n + TablesFor(m, page, n) <= Found(m)
  {
  }

  lemma {:induction false} SufficesNoMore(m: Mem, page: nat, n: nat, all: nat)
    requires n <= all && !Suffices(m, page, n)
    ensures !Suffices(m, page, all)
    decreases all
  {
    if n < all {
      SufficesNoMore(m, page, n, all - 1);
    }
  }

  lemma EnoughStep(m: Mem, page: nat, n: nat)
    ensures Enough(m, page, n + 1) <==> Enough(m, page, n) && OneMoreFits(m, page, n)
  {
  }

  lemma EnoughLast(m: Mem, page: nat, n: nat)
    requires 0 < n
    ensures Enough(m, page, n) <==> Enough(m, page, n - 1) && OneMoreFits(m, page, n - 1)
  {
    EnoughStep(m, page, n - 1);
  }

  lemma {:induction false} SufficesIsEnough(m: Mem, page: nat, n: nat)
    ensures Suffices(m, page, n) <==> Enough(m, page, n)
  {
    if n > 0 {
      SufficesIsEnough(m, page, n - 1);
      EnoughLast(m, page, n);
    }
  }

  lemma {:induction false} CountIsSize(clear: set<nat>, bound: nat, low: set<nat>)
    requires forall f :: f in low <==> f in clear && f < bound
    ensures CountBelow(clear, bound) == |low|
  {
    if bound == 0 {
      assert low == {};
    } else {
      CountIsSize(clear, bound - 1, low - {bound - 1});
    }
  }

  lemma {:induction false} NoneBelow(clear: set<nat>, bound: nat)
    ensures CountBelow(clear, bound) == 0 <==> forall f :: f in clear ==> bound <= f
  {
    if bound > 0 {
      NoneBelow(clear, bound - 1);
      if forall f :: f in clear ==> bound <= f {
        assert forall f :: f in clear ==> bound - 1 <= f;
      }
    }
  }

  lemma {:induction false} OneFewerBelow(clear: set<nat>, f: nat, bound: nat)
    requires f in clear
    ensures CountBelow(clear - {f}, bound) == CountBelow(clear, bound) - if f < bound then 1 else 0
  {
    if bound > 0 {
      OneFewerBelow(clear, f, bound - 1);
    }
  }

  /** What is left when `taken` of `had` frames are gone. */
  function Left(had: nat, taken: nat): nat {
    if taken < had then had - taken else 0
  }

  /** The allocator takes the lowest: below any bound it reaches there is one frame fewer, if there was one. */
  lemma TakeLowers(s: Frames, f: nat, bound: nat)
    requires NextFrame(s) == Some(f) && bound <= Reach(s.total)
    ensures CountBelow(Take(s, f).clear, bound) == Left(CountBelow(s.clear, bound), 1)
    ensures f < bound <==> CountBelow(s.clear, bound) > 0
  {
    NoneBelow(s.clear, bound);
    OneFewerBelow(s.clear, f, bound);
  }

  lemma NextIsFound(m: Mem)
    ensures NextFrame(m.frames).Some? <==> Found(m) > 0
  {
    NoneBelow(m.frames.clear, Reach(m.frames.total));
  }
}
