/** The block list of kernel/kheap.c as a value: blocks in address order, each 12 bytes of header and its payload. */
module HeapBlocks {
  import opened Words

  datatype Block = Block(size: nat, free: bool)

  /** The bytes that blocks and their headers take. */
  function Span(bs: seq<Block>): nat {
    if bs == [] then 0 else 12 + bs[0].size + Span(bs[1..])
  }

  /** `total_allocated`. */
  function Allocated(bs: seq<Block>): nat {
    if bs == [] then 0 else (if bs[0].free then 0 else bs[0].size) + Allocated(bs[1..])
  }

  /** `find_free_block`: the first free block that is large enough, or the length. */
  function FirstFit(bs: seq<Block>, size: nat): (i: nat)
    ensures i <= |bs| && (i < |bs| ==> bs[i].free && bs[i].size >= size)
    ensures forall k :: 0 <= k < i ==> !(bs[k].free && bs[k].size >= size)
  {
    if bs == [] || (bs[0].free && bs[0].size >= size) then 0 else 1 + FirstFit(bs[1..], size)
  }

  /** `split_block` and the marking that follows it in `kmalloc`. */
  function Allocate(bs: seq<Block>, i: nat, size: nat): seq<Block>
    requires i < |bs| && size <= bs[i].size
  {
    if i > 0 then [bs[0]] + Allocate(bs[1..], i - 1, size)
    else if bs[0].size >= size + 12 + 32 then [Block(size, false), Block(bs[0].size - size - 12, true)] + bs[1..]
    else [Block(bs[0].size, false)] + bs[1..]
  }

  /** The size block `i` is given. */
  function GivenSize(b: Block, size: nat): nat {
    if b.size >= size + 12 + 32 then size else b.size
  }

  /** Block `i` marked free, before merging. */
  function Release(bs: seq<Block>, i: nat): seq<Block>
    requires i < |bs|
  {
    if i > 0 then [bs[0]] + Release(bs[1..], i - 1) else [Block(bs[0].size, true)] + bs[1..]
  }

  /** `merge_free_blocks`. */
  function Merge(bs: seq<Block>): seq<Block>
    decreases |bs|
  {
    if |bs| < 2 then bs
    else if bs[0].free && bs[1].free then Merge([Block(bs[0].size + 12 + bs[1].size, true)] + bs[2..])
    else [bs[0]] + Merge(bs[1..])
  }

  /** The list part of `heap_expand`: `n` more bytes at the end. */
  function Extend(bs: seq<Block>, n: nat): seq<Block>
    requires bs != [] && n >= 12
  {
    if |bs| > 1 then [bs[0]] + Extend(bs[1..], n)
    else if bs[0].free then [Block(bs[0].size + n, true)]
    else [bs[0], Block(n - 12, true)]
  }

  predicate NoAdjacentFree(bs: seq<Block>) {
    |bs| < 2 || (!(bs[0].free && bs[1].free) && NoAdjacentFree(bs[1..]))
  }

  /** The live payloads: address to size, for blocks laid out from address `start`. */
  function Live(start: nat, bs: seq<Block>): map<nat, nat>
    decreases bs
  {
    if bs == [] then map[]
    else if bs[0].free then Live(start + 12 + bs[0].size, bs[1..])
    else Live(start + 12 + bs[0].size, bs[1..])[start + 12 := bs[0].size]
  }

  /** The address of block `i`. */
  function AddrOf(start: nat, bs: seq<Block>, i: nat): nat
    requires i <= |bs|
    decreases bs
  {
    if i == 0 then start else AddrOf(start + 12 + bs[0].size, bs[1..], i - 1)
  }

  /** The block whose payload starts at `ptr`, or the length. */
  function IndexAt(start: nat, bs: seq<Block>, ptr: nat): (i: nat)
    ensures i <= |bs|
    decreases bs
  {
    if bs == [] || ptr == start + 12 then 0 else 1 + IndexAt(start + 12 + bs[0].size, bs[1..], ptr)
  }

  /** Sizes are positive whole words, so that headers and payloads lie on word boundaries. */
  predicate WordSized(bs: seq<Block>) {
    bs == [] || (bs[0].size > 0 && bs[0].size % 4 == 0 && WordSized(bs[1..]))
  }

  lemma {:induction false} AllocateWords(bs: seq<Block>, i: nat, size: nat)
    requires i < |bs| && 0 < size <= bs[i].size && size % 4 == 0 && WordSized(bs)
    ensures WordSized(Allocate(bs, i, size))
  {
    var a := Allocate(bs, i, size);
    if i > 0 {
      AllocateWords(bs[1..], i - 1, size);
      assert a[1..] == Allocate(bs[1..], i - 1, size);
    } else if bs[0].size >= size + 12 + 32 {
      assert a[1..] == [Block(bs[0].size - size - 12, true)] + bs[1..];
      assert a[1..][1..] == bs[1..];
    } else {
      assert a[1..] == bs[1..];
    }
  }

  lemma {:induction false} ReleaseWords(bs: seq<Block>, i: nat)
    requires i < |bs| && WordSized(bs)
    ensures WordSized(Release(bs, i))
  {
    if i > 0 {
      ReleaseWords(bs[1..], i - 1);
      assert Release(bs, i)[1..] == Release(bs[1..], i - 1);
    } else {
      assert Release(bs, i)[1..] == bs[1..];
    }
  }

  lemma {:induction false} MergeWords(bs: seq<Block>)
    requires WordSized(bs)
    ensures WordSized(Merge(bs))
    decreases |bs|
  {
    if |bs| >= 2 {
      assert WordSized(bs[1..]) && bs[1..][1..] == bs[2..];
      if bs[0].free && bs[1].free {
        var joined := [Block(bs[0].size + 12 + bs[1].size, true)] + bs[2..];
        assert joined[1..] == bs[2..];
        MergeWords(joined);
      } else {
        MergeWords(bs[1..]);
        assert Merge(bs)[1..] == Merge(bs[1..]);
      }
    }
  }

  lemma {:induction false} ExtendWords(bs: seq<Block>, n: nat)
    requires bs != [] && n > 12 && n % 4 == 0 && WordSized(bs)
    ensures WordSized(Extend(bs, n))
  {
    if |bs| > 1 {
      ExtendWords(bs[1..], n);
      assert Extend(bs, n)[1..] == Extend(bs[1..], n);
    } else {
      assert Extend(bs, n)[1..] == (if bs[0].free then [] else [Block(n - 12, true)]);
    }
  }

  /** The word that the list keeps at address `a`, if that is in a header: a size, a free flag or a link to the next. */
  function HeaderWord(start: nat, bs: seq<Block>, a: int): Option<nat>
    decreases bs
  {
    if bs == [] then None
    else if a == start then Some(bs[0].size)
    else if a == start + 4 then Some(if bs[0].free then 1 else 0)
    else if a == start + 8 then Some(if |bs| == 1 then 0 else start + 12 + bs[0].size)
    else HeaderWord(start + 12 + bs[0].size, bs[1..], a)
  }

  /** No header lies below the first. */
  lemma {:induction false} HeaderWordAbove(start: nat, bs: seq<Block>, a: int)
    requires a < start
    ensures HeaderWord(start, bs, a) == None
    decreases bs
  {
    if bs != [] {
      HeaderWordAbove(start + 12 + bs[0].size, bs[1..], a);
    }
  }

  /** Size and flag of a block stand 12 and 8 bytes before its payload. */
  lemma {:induction false} HeaderOf(start: nat, bs: seq<Block>, ptr: nat)
    requires IndexAt(start, bs, ptr) < |bs|
    ensures HeaderWord(start, bs, ptr - 12) == Some(bs[IndexAt(start, bs, ptr)].size)
    ensures HeaderWord(start, bs, ptr - 8) == Some(if bs[IndexAt(start, bs, ptr)].free then 1 else 0)
    decreases bs
  {
    if ptr != start + 12 {
      var next := start + 12 + bs[0].size;
      AddrOfIndex(next, bs[1..], ptr);
      AddrBounds(next, bs[1..], IndexAt(next, bs[1..], ptr));
      HeaderOf(next, bs[1..], ptr);
    }
  }

  /** The link of a block stands just before its payload: the end of the payload, or 0 for the last block. */
  lemma {:induction false} LinkOf(start: nat, bs: seq<Block>, ptr: nat)
    requires IndexAt(start, bs, ptr) < |bs|
    ensures HeaderWord(start, bs, ptr - 4) ==
            Some(if IndexAt(start, bs, ptr) == |bs| - 1 then 0 else ptr + bs[IndexAt(start, bs, ptr)].size)
    decreases bs
  {
    if ptr != start + 12 {
      var next := start + 12 + bs[0].size;
      AddrOfIndex(next, bs[1..], ptr);
      AddrBounds(next, bs[1..], IndexAt(next, bs[1..], ptr));
      LinkOf(next, bs[1..], ptr);
    }
  }

  /** Header words are sizes, flags and addresses in the span of the list. */
  lemma {:induction false} HeaderWordBound(start: nat, bs: seq<Block>, a: int)
    requires HeaderWord(start, bs, a).Some?
    ensures HeaderWord(start, bs, a).value <= start + Span(bs) + 1
    decreases bs
  {
    if a != start && a != start + 4 && a != start + 8 {
      HeaderWordBound(start + 12 + bs[0].size, bs[1..], a);
    }
  }

  lemma {:induction false} IndexAtAddr(start: nat, bs: seq<Block>, i: nat)
    requires i < |bs|
    ensures IndexAt(start, bs, AddrOf(start, bs, i) + 12) == i
    decreases bs
  {
    if i > 0 {
      IndexAtAddr(start + 12 + bs[0].size, bs[1..], i - 1);
      AddrBounds(start + 12 + bs[0].size, bs[1..], i - 1);
    }
  }

  lemma {:induction false} AddrOfIndex(start: nat, bs: seq<Block>, ptr: nat)
    requires IndexAt(start, bs, ptr) < |bs|
    ensures AddrOf(start, bs, IndexAt(start, bs, ptr)) + 12 == ptr
    decreases bs
  {
    if ptr != start + 12 {
      AddrOfIndex(start + 12 + bs[0].size, bs[1..], ptr);
    }
  }

  // -- Allocating ----------------------------------------------------------------------------

  lemma {:induction false} AllocateKeeps(bs: seq<Block>, i: nat, size: nat)
    requires i < |bs| && bs[i].free && size <= bs[i].size
    ensures Span(Allocate(bs, i, size)) == Span(bs)
    ensures Allocated(Allocate(bs, i, size)) == Allocated(bs) + GivenSize(bs[i], size)
    ensures |Allocate(bs, i, size)| >= |bs| && Allocate(bs, i, size)[i] == Block(GivenSize(bs[i], size), false)
  {
    var a := Allocate(bs, i, size);
    if i > 0 {
      AllocateKeeps(bs[1..], i - 1, size);
      assert a[1..] == Allocate(bs[1..], i - 1, size);
    } else if bs[0].size >= size + 12 + 32 {
      assert a[1..] == [Block(bs[0].size - size - 12, true)] + bs[1..];
      assert a[1..][1..] == bs[1..];
    } else {
      assert a[1..] == bs[1..];
    }
  }

  lemma {:induction false} AllocateSeparates(bs: seq<Block>, i: nat, size: nat)
    requires i < |bs| && bs[i].free && size <= bs[i].size && NoAdjacentFree(bs)
    ensures NoAdjacentFree(Allocate(bs, i, size))
    ensures Allocate(bs, i, size)[0].free ==> bs[0].free
  {
    var a := Allocate(bs, i, size);
    if i > 0 {
      AllocateSeparates(bs[1..], i - 1, size);
      assert a[1..] == Allocate(bs[1..], i - 1, size);
    } else if bs[0].size >= size + 12 + 32 {
      assert a[1..] == [Block(bs[0].size - size - 12, true)] + bs[1..];
      assert a[1..][1..] == bs[1..];
    } else {
      assert a[1..] == bs[1..];
    }
  }

  // -- Merging -------------------------------------------------------------------------------

  lemma {:induction false} MergeKeeps(bs: seq<Block>)
    ensures Span(Merge(bs)) == Span(bs) && Allocated(Merge(bs)) == Allocated(bs)
    ensures NoAdjacentFree(Merge(bs))
    ensures |Merge(bs)| <= |bs| && (bs != [] ==> Merge(bs) != [] && Merge(bs)[0].free == bs[0].free)
    decreases |bs|
  {
    if |bs| >= 2 {
      if bs[0].free && bs[1].free {
        var joined := [Block(bs[0].size + 12 + bs[1].size, true)] + bs[2..];
        MergeKeeps(joined);
        assert joined[1..] == bs[2..] && bs[1..][1..] == bs[2..];
      } else {
        MergeKeeps(bs[1..]);
        assert Merge(bs)[1..] == Merge(bs[1..]);
      }
    }
  }

  lemma {:induction false} MergeLive(start: nat, bs: seq<Block>)
    ensures Live(start, Merge(bs)) == Live(start, bs)
    decreases |bs|
  {
    if |bs| >= 2 {
      if bs[0].free && bs[1].free {
        var joined := [Block(bs[0].size + 12 + bs[1].size, true)] + bs[2..];
        MergeLive(start, joined);
        assert joined[1..] == bs[2..] && bs[1..][1..] == bs[2..];
      } else {
        MergeLive(start + 12 + bs[0].size, bs[1..]);
        assert Merge(bs)[1..] == Merge(bs[1..]);
      }
    }
  }

  lemma {:induction false} MergeNothing(bs: seq<Block>)
    requires NoAdjacentFree(bs)
    ensures Merge(bs) == bs
  {
    if |bs| >= 2 {
      MergeNothing(bs[1..]);
      assert bs == [bs[0]] + bs[1..];
    }
  }

  /** Freeing what was just allocated gives the very list back. */
  lemma {:induction false} RoundTrip(bs: seq<Block>, i: nat, size: nat)
    requires i < |bs| && bs[i].free && size <= bs[i].size && NoAdjacentFree(bs)
    ensures i < |Allocate(bs, i, size)| && Merge(Release(Allocate(bs, i, size), i)) == bs
  {
    AllocateKeeps(bs, i, size);
    var a := Allocate(bs, i, size);
    var r := Release(a, i);
    if i > 0 {
      RoundTrip(bs[1..], i - 1, size);
      assert a[1..] == Allocate(bs[1..], i - 1, size);
      assert r == [bs[0]] + Release(a[1..], i - 1);
      assert r[1..] == Release(a[1..], i - 1);
      ReleaseFirst(a[1..], i - 1);
      AllocateSeparates(bs[1..], i - 1, size);
      assert !(bs[0].free && r[1].free);
      assert bs == [bs[0]] + bs[1..];
    } else if bs[0].size >= size + 12 + 32 {
      assert r == [Block(size, true), Block(bs[0].size - size - 12, true)] + bs[1..];
      assert [Block(r[0].size + 12 + r[1].size, true)] + r[2..] == bs;
      MergeNothing(bs);
    } else {
      assert r == bs;
      MergeNothing(bs);
    }
  }

  lemma ReleaseFirst(bs: seq<Block>, i: nat)
    requires i < |bs|
    ensures |Release(bs, i)| == |bs| && Release(bs, i)[0].free == (i == 0 || bs[0].free)
  {
  }

  // -- Growing -------------------------------------------------------------------------------

  lemma {:induction false} ExtendKeeps(bs: seq<Block>, n: nat)
    requires bs != [] && n >= 12 && NoAdjacentFree(bs)
    ensures Span(Extend(bs, n)) == Span(bs) + n && Allocated(Extend(bs, n)) == Allocated(bs)
    ensures NoAdjacentFree(Extend(bs, n)) && Extend(bs, n) != [] && Extend(bs, n)[0].free == bs[0].free
    ensures var e := Extend(bs, n); e[|e| - 1].free && e[|e| - 1].size >= n - 12
  {
    var e := Extend(bs, n);
    if |bs| > 1 {
      ExtendKeeps(bs[1..], n);
      assert e[1..] == Extend(bs[1..], n);
    } else if bs[0].free {
      assert e[1..] == [] && bs[1..] == [];
    } else {
      assert e[1..] == [Block(n - 12, true)] && e[1..][1..] == [];
    }
  }

  lemma {:induction false} ExtendLive(start: nat, bs: seq<Block>, n: nat)
    requires bs != [] && n >= 12
    ensures Live(start, Extend(bs, n)) == Live(start, bs)
    decreases bs
  {
    var e := Extend(bs, n);
    if |bs| > 1 {
      ExtendLive(start + 12 + bs[0].size, bs[1..], n);
      assert e[1..] == Extend(bs[1..], n);
    } else if bs[0].free {
      assert e[1..] == [] && bs[1..] == [];
    } else {
      assert e[1..] == [Block(n - 12, true)] && e[1..][1..] == [] && bs[1..] == [];
      assert Live(start + 12 + bs[0].size, e[1..]) == map[];
    }
  }

  /** After growing by room for a block and its header, the search always succeeds. */
  lemma ExtendFits(bs: seq<Block>, n: nat, size: nat)
    requires bs != [] && NoAdjacentFree(bs) && n >= size + 12
    ensures FirstFit(Extend(bs, n), size) < |Extend(bs, n)|
  {
    ExtendKeeps(bs, n);
  }

  /** With nothing allocated the heap is one free block that spans all but one header. */
  lemma AllFreeIsOne(bs: seq<Block>)
    requires bs != [] && NoAdjacentFree(bs) && forall i :: 0 <= i < |bs| ==> bs[i].free
    ensures bs == [Block(Span(bs) - 12, true)]
  {
    if |bs| < 2 {
      assert bs[1..] == [];
    }
  }

  // -- Live payloads -------------------------------------------------------------------------

  /** Live payloads lie between the headers, each after its own. */
  lemma {:induction false} LiveInside(start: nat, bs: seq<Block>, p: nat)
    requires p in Live(start, bs)
    ensures start + 12 <= p && p + Live(start, bs)[p] <= start + Span(bs)
    decreases bs
  {
    if !(p == start + 12 && !bs[0].free) {
      LiveInside(start + 12 + bs[0].size, bs[1..], p);
    }
  }

  /** Two live payloads never overlap, and at least a header lies between them. */
  lemma {:induction false} LiveApart(start: nat, bs: seq<Block>, p: nat, q: nat)
    requires p in Live(start, bs) && q in Live(start, bs) && p < q
    ensures p + Live(start, bs)[p] + 12 <= q
    decreases bs
  {
    var next := start + 12 + bs[0].size;
    if !bs[0].free && p == start + 12 {
      LiveInside(next, bs[1..], q);
    } else {
      LiveInside(next, bs[1..], p);
      if !bs[0].free && q == start + 12 {
        assert false;
      } else {
        LiveApart(next, bs[1..], p, q);
      }
    }
  }

  /** Allocating adds one payload and leaves all others where they are. */
  lemma {:induction false} AllocateLive(start: nat, bs: seq<Block>, i: nat, size: nat)
    requires i < |bs| && bs[i].free && size <= bs[i].size
    ensures AddrOf(start, bs, i) + 12 !in Live(start, bs)
    ensures Live(start, Allocate(bs, i, size)) == Live(start, bs)[AddrOf(start, bs, i) + 12 := GivenSize(bs[i], size)]
    decreases bs
  {
    var a := Allocate(bs, i, size);
    var next := start + 12 + bs[0].size;
    if i > 0 {
      AllocateLive(next, bs[1..], i - 1, size);
      AddrBounds(next, bs[1..], i - 1);
      assert a[1..] == Allocate(bs[1..], i - 1, size);
    } else {
      if start + 12 in Live(next, bs[1..]) {
        LiveInside(next, bs[1..], start + 12);
      }
      if bs[0].size >= size + 12 + 32 {
        assert a[1..] == [Block(bs[0].size - size - 12, true)] + bs[1..];
        assert a[1..][1..] == bs[1..];
      } else {
        assert a[1..] == bs[1..];
      }
    }
  }

  lemma {:induction false} AddrBounds(start: nat, bs: seq<Block>, i: nat)
    requires i < |bs|
    ensures start <= AddrOf(start, bs, i) && AddrOf(start, bs, i) + 12 + bs[i].size <= start + Span(bs)
    decreases bs
  {
    if i > 0 {
      AddrBounds(start + 12 + bs[0].size, bs[1..], i - 1);
    }
  }

  /** Freeing takes out one payload and leaves all others where they are. */
  lemma {:induction false} ReleaseLive(start: nat, bs: seq<Block>, i: nat)
    requires i < |bs| && !bs[i].free
    ensures AddrOf(start, bs, i) + 12 in Live(start, bs) && Live(start, bs)[AddrOf(start, bs, i) + 12] == bs[i].size
    ensures Live(start, Release(bs, i)) == Live(start, bs) - {AddrOf(start, bs, i) + 12}
    ensures Span(Release(bs, i)) == Span(bs) && Allocated(Release(bs, i)) == Allocated(bs) - bs[i].size
    decreases bs
  {
    var r := Release(bs, i);
    var next := start + 12 + bs[0].size;
    if i > 0 {
      ReleaseLive(next, bs[1..], i - 1);
      AddrBounds(next, bs[1..], i - 1);
      assert r[1..] == Release(bs[1..], i - 1);
    } else {
      assert r[1..] == bs[1..];
      if start + 12 in Live(next, bs[1..]) {
        LiveInside(next, bs[1..], start + 12);
      }
    }
  }

  /** What `kheap_get_free` reports counts every header as free space. */
  lemma {:induction false} FreeCountsHeaders(bs: seq<Block>)
    ensures Span(bs) - Allocated(bs) == 12 * |bs| + FreeBytes(bs)
  {
    if bs != [] {
      FreeCountsHeaders(bs[1..]);
    }
  }

  function FreeBytes(bs: seq<Block>): nat {
    if bs == [] then 0 else (if bs[0].free then bs[0].size else 0) + FreeBytes(bs[1..])
  }
}
