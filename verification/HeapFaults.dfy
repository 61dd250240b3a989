/** kernel/kheap.c: block headers on pages that are not mapped, where the write of a header faults and the kernel halts. */
module HeapFaults {
  import opened Words
  import opened HeapBlocks
  import opened Heap

  /** The 12 bytes of a header at `a` lie on mapped pages. */
  predicate HeaderMapped(flat: map<nat, nat>, a: nat) {
    a / 4096 in flat && (a + 11) / 4096 in flat
  }

  /** So do all headers of a list laid out from `at`. */
  ghost predicate AllMapped(flat: map<nat, nat>, at: nat, bs: seq<Block>)
    decreases bs
  {
    bs == [] || (HeaderMapped(flat, at) && AllMapped(flat, at + 12 + bs[0].size, bs[1..]))
  }

  /** `split_block` on the block found for `s` bytes writes a header where nothing is mapped. */
  predicate SplitFaults(flat: map<nat, nat>, h: HeapState, s: nat) {
    var i := FirstFit(h.blocks, s);
    i < |h.blocks| && h.blocks[i].size >= s + 12 + 32 && !HeaderMapped(flat, AddrOf(HEAP_START, h.blocks, i) + 12 + s)
  }

  /** `heap_expand` writes the header of a new block at the end of the heap where nothing is mapped. */
  predicate AppendFaults(flat: map<nat, nat>, h: HeapState)
    requires h.blocks != []
  {
    !h.blocks[|h.blocks| - 1].free && !HeaderMapped(flat, h.end)
  }

  /** `kmalloc` writes a header where nothing is mapped; `went` says that the heap grew, `flat` is the mapping then. */
  predicate Faults(flat: map<nat, nat>, h: HeapState, size: nat, went: bool)
    requires h.blocks != [] && Small(size)
  {
    var s := Round8(size);
    size != 0 &&
    if FirstFit(h.blocks, s) < |h.blocks| then SplitFaults(flat, h, s)
    else went && (AppendFaults(flat, h) || (GrowBy(s) >= 12 && SplitFaults(flat, Grow(h, GrowBy(s)), s)))
  }

  // ---- Lists whose headers are all mapped ----

  lemma {:induction false} MappedMore(flat: map<nat, nat>, flat': map<nat, nat>, at: nat, bs: seq<Block>)
    requires AllMapped(flat, at, bs) && forall p :: p in flat ==> p in flat'
    ensures AllMapped(flat', at, bs)
    decreases bs
  {
    if bs != [] {
      MappedMore(flat, flat', at + 12 + bs[0].size, bs[1..]);
    }
  }

  lemma {:induction false} MappedAllocate(flat: map<nat, nat>, at: nat, bs: seq<Block>, i: nat, size: nat)
    requires i < |bs| && size <= bs[i].size && AllMapped(flat, at, bs)
    requires bs[i].size >= size + 12 + 32 ==> HeaderMapped(flat, AddrOf(at, bs, i) + 12 + size)
    ensures AllMapped(flat, at, Allocate(bs, i, size))
    decreases bs
  {
    var a := Allocate(bs, i, size);
    if i > 0 {
      MappedAllocate(flat, at + 12 + bs[0].size, bs[1..], i - 1, size);
      assert a[1..] == Allocate(bs[1..], i - 1, size);
    } else if bs[0].size >= size + 12 + 32 {
      assert a[1..] == [Block(bs[0].size - size - 12, true)] + bs[1..];
      assert a[1..][1..] == bs[1..];
      assert AllMapped(flat, at + 12 + size, a[1..]);
    } else {
      assert a[1..] == bs[1..];
    }
  }

  lemma {:induction false} MappedExtend(flat: map<nat, nat>, at: nat, bs: seq<Block>, n: nat)
    requires bs != [] && n >= 12 && AllMapped(flat, at, bs)
    requires !bs[|bs| - 1].free ==> HeaderMapped(flat, at + Span(bs))
    ensures AllMapped(flat, at, Extend(bs, n))
    decreases bs
  {
    var e := Extend(bs, n);
    if |bs| > 1 {
      MappedExtend(flat, at + 12 + bs[0].size, bs[1..], n);
      assert e[1..] == Extend(bs[1..], n);
    } else if bs[0].free {
      assert e[1..] == [];
    } else {
      assert bs[1..] == [] && e[1..] == [Block(n - 12, true)] && e[1..][1..] == [];
    }
  }

  lemma {:induction false} MappedRelease(flat: map<nat, nat>, at: nat, bs: seq<Block>, i: nat)
    requires i < |bs| && AllMapped(flat, at, bs)
    ensures AllMapped(flat, at, Release(bs, i))
    decreases bs
  {
    if i > 0 {
      MappedRelease(flat, at + 12 + bs[0].size, bs[1..], i - 1);
      assert Release(bs, i)[1..] == Release(bs[1..], i - 1);
    } else {
      assert Release(bs, i)[1..] == bs[1..];
    }
  }

  lemma {:induction false} MappedMerge(flat: map<nat, nat>, at: nat, bs: seq<Block>)
    requires AllMapped(flat, at, bs)
    ensures AllMapped(flat, at, Merge(bs))
    decreases |bs|
  {
    if |bs| >= 2 {
      assert AllMapped(flat, at + 12 + bs[0].size, bs[1..]) && bs[1..][1..] == bs[2..];
      if bs[0].free && bs[1].free {
        var joined := [Block(bs[0].size + 12 + bs[1].size, true)] + bs[2..];
        assert joined[1..] == bs[2..];
        MappedMerge(flat, at, joined);
      } else {
        MappedMerge(flat, at + 12 + bs[0].size, bs[1..]);
        assert Merge(bs)[1..] == Merge(bs[1..]);
      }
    }
  }

  /** `kfree` writes no header anew, so it leaves them all mapped. */
  lemma FreeMapped(flat: map<nat, nat>, h: HeapState, ptr: nat, size: nat, flag: nat)
    requires AllMapped(flat, HEAP_START, h.blocks) && FreeAt(h, ptr, size, flag).Some?
    ensures AllMapped(flat, HEAP_START, FreeAt(h, ptr, size, flag).value.blocks)
  {
    var i := IndexAt(HEAP_START, h.blocks, ptr);
    MappedMerge(flat, HEAP_START, h.blocks);
    if i < |h.blocks| {
      MappedRelease(flat, HEAP_START, h.blocks, i);
      MappedMerge(flat, HEAP_START, Release(h.blocks, i));
    }
  }

  /** The block found is split without a fault: the headers are still all mapped. */
  lemma GiveMapped(flat: map<nat, nat>, h: HeapState, s: nat, i: nat)
    requires AllMapped(flat, HEAP_START, h.blocks) && i == FirstFit(h.blocks, s) < |h.blocks| && !SplitFaults(flat, h, s)
    ensures AllMapped(flat, HEAP_START, Give(h, i, s).0.blocks)
  {
    MappedAllocate(flat, HEAP_START, h.blocks, i, s);
  }

  // ---- When a header falls on a missing page ----

  /** Every page of `[HEAP_START, end)` is mapped. */
  ghost predicate WholeBelow(flat: map<nat, nat>, end: nat) {
    forall p :: HEAP_START / 4096 <= p && 4096 * p < end ==> p in flat
  }

  lemma WholeHeader(flat: map<nat, nat>, end: nat, a: nat)
    requires WholeBelow(flat, end) && HEAP_START <= a && a + 12 <= end
    ensures HeaderMapped(flat, a)
  {
    assert 4096 * (a / 4096) <= a && 4096 * ((a + 11) / 4096) <= a + 11;
  }

  lemma {:induction false} WholeAllMapped(flat: map<nat, nat>, at: nat, bs: seq<Block>, end: nat)
    requires WholeBelow(flat, end) && HEAP_START <= at && at + Span(bs) <= end
    ensures AllMapped(flat, at, bs)
    decreases bs
  {
    if bs != [] {
      WholeHeader(flat, end, at);
      WholeAllMapped(flat, at + 12 + bs[0].size, bs[1..], end);
    }
  }

  /** The split header of a fit lies in the heap. */
  lemma SplitInside(flat: map<nat, nat>, h: HeapState, s: nat, end: nat)
    requires h.blocks != [] && HEAP_START + Span(h.blocks) == h.end <= end && WholeBelow(flat, end)
    ensures !SplitFaults(flat, h, s)
  {
    var i := FirstFit(h.blocks, s);
    if i < |h.blocks| && h.blocks[i].size >= s + 12 + 32 {
      AddrBounds(HEAP_START, h.blocks, i);
      WholeHeader(flat, end, AddrOf(HEAP_START, h.blocks, i) + 12 + s);
    }
  }

  /** A heap with all its pages never faults. */
  lemma WholeNeverFaults(flat: map<nat, nat>, h: HeapState, size: nat, went: bool)
    requires HeapInv(h) && Small(size)
    requires WholeBelow(flat, h.end + if went then GrowBy(Round8(size)) else 0)
    ensures !Faults(flat, h, size, went)
  {
    SmallSums(size);
    var s := Round8(size);
    var end := h.end + if went then GrowBy(s) else 0;
    SplitInside(flat, h, s, end);
    if went {
      WholeHeader(flat, end, h.end);
      ExtendKeeps(h.blocks, GrowBy(s));
      SplitInside(flat, Grow(h, GrowBy(s)), s, end);
    }
  }

  /** With one page missing above a heap that is whole below it, a header is mapped exactly if it ends below the page. */
  lemma HeaderBelowGap(flat: map<nat, nat>, gap: nat, a: nat)
    requires WholeBelow(flat, gap) && gap % 4096 == 0 && gap / 4096 !in flat
    requires HEAP_START <= a && a + 12 <= gap + 4096
    ensures HeaderMapped(flat, a) <==> a + 12 <= gap
  {
    if a + 12 <= gap {
      WholeHeader(flat, gap, a);
    } else {
      assert (a + 11) / 4096 == gap / 4096;
    }
  }

  lemma {:induction false} ExtendShape(bs: seq<Block>, n: nat)
    requires bs != [] && n >= 12
    ensures Extend(bs, n) ==
            if bs[|bs| - 1].free then bs[..|bs| - 1] + [Block(bs[|bs| - 1].size + n, true)] else bs + [Block(n - 12, true)]
  {
    if |bs| > 1 {
      ExtendShape(bs[1..], n);
      assert bs[..|bs| - 1] == [bs[0]] + bs[1..][..|bs| - 2];
    }
  }

  lemma {:induction false} LastAddr(at: nat, bs: seq<Block>)
    requires bs != []
    ensures AddrOf(at, bs, |bs| - 1) + 12 + bs[|bs| - 1].size == at + Span(bs)
    decreases bs
  {
    if |bs| > 1 {
      LastAddr(at + 12 + bs[0].size, bs[1..]);
    } else {
      assert bs[1..] == [];
    }
  }

  lemma FitIsLast(bs: seq<Block>, k: nat, b: Block, s: nat)
    requires k <= |bs| && FirstFit(bs, s) == |bs| && b.free && b.size >= s
    ensures FirstFit(bs[..k] + [b], s) == k
  {
    assert (bs[..k] + [b])[k] == b;
  }

  /** Which block a growth makes fit, and where it lies. */
  lemma FitAfterExtend(at: nat, bs: seq<Block>, e: seq<Block>, n: nat, s: nat, last: Block) returns (i: nat, b: Block)
    requires bs != [] && NoAdjacentFree(bs) && FirstFit(bs, s) == |bs| && n >= s + 12 && last == bs[|bs| - 1] && e == Extend(bs, n)
    ensures b == Block(if last.free then last.size + n else n - 12, true)
    ensures i == FirstFit(e, s) < |e| && e[i] == b
    ensures AddrOf(at, e, i) + 12 + b.size == at + Span(bs) + n
  {
    i, b := if last.free then |bs| - 1 else |bs|, Block(if last.free then last.size + n else n - 12, true);
    assert e == bs[..i] + [b] by {
      ExtendShape(bs, n);
      assert bs[..|bs|] == bs;
    }
    FitIsLast(bs, i, b, s);
    assert Span(e) == Span(bs) + n by {
      ExtendKeeps(bs, n);
    }
    LastAddr(at, e);
  }

  /** The second header in a growth by `n` bytes whose last page is missing. */
  lemma SplitAtGap(flat: map<nat, nat>, h: HeapState, n: nat, s: nat, last: Block)
    requires HeapInv(h) && FirstFit(h.blocks, s) == |h.blocks| && last == h.blocks[|h.blocks| - 1]
    requires n >= s + 12 && n >= 4096 && n % 4096 == 0 && WholeBelow(flat, h.end + n - 4096) && (h.end + n) / 4096 - 1 !in flat
    ensures SplitFaults(flat, Grow(h, n), s) <==>
            if last.free then s + 12 + 32 <= last.size + n < s + 12 + 4096 else s + 12 + 12 + 32 <= n < s + 12 + 12 + 4096
  {
    var e := Extend(h.blocks, n);
    var i, b := FitAfterExtend(HEAP_START, h.blocks, e, n, s, last);
    var a := AddrOf(HEAP_START, e, i);
    AddrBounds(HEAP_START, e, i);
    if b.size >= s + 12 + 32 {
      HeaderBelowGap(flat, h.end + n - 4096, a + 12 + s);
    }
  }

  /**
   A growth of a whole heap whose last page got no table. `kmalloc` faults in it exactly when the new block's own header
   lies there, because it is the only page, or the block is split and the second header ends on that page.
   */
  lemma MissingPageFaults(flat: map<nat, nat>, h: HeapState, size: nat, s: nat, last: Block)
    requires HeapInv(h) && 0 < size && Small(size) && s == Round8(size) && FirstFit(h.blocks, s) == |h.blocks|
    requires last == h.blocks[|h.blocks| - 1] && GrowBy(s) >= 4096 && WholeBelow(flat, h.end + GrowBy(s) - 4096)
    requires (h.end + GrowBy(s)) / 4096 - 1 !in flat
    ensures Faults(flat, h, size, true) <==>
            if last.free then s + 12 + 32 <= last.size + GrowBy(s) < s + 12 + 4096
            else GrowBy(s) == 4096 || s + 12 + 12 + 32 <= GrowBy(s)
  {
    SmallSums(size);
    assert GrowBy(s) < s + 12 + 4096 by {
      assert Wrap(s + 12) == s + 12 && Wrap(s + 12 + 4095) == s + 12 + 4095;
    }
    SplitAtGap(flat, h, GrowBy(s), s, last);
    HeaderBelowGap(flat, h.end + GrowBy(s) - 4096, h.end);
  }
}
