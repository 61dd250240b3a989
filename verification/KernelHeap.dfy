/** kernel/kheap.c in place: block headers in heap memory, linked by address, and growth through the page tables. */
module KernelHeap {
  import opened Words
  import opened HeapBlocks
  import opened Heap
  import opened HeapFaults
  import opened Paging
  import opened PageRanges
  import opened FrameDemand
  import Vmm

  /** `block_header_t`; `next` is an address, 0 standing for NULL. */
  datatype Header = Header(size: nat, isFree: bool, next: nat)

  type Headers = map<nat, Header>

  /** The headers of `bs`, laid out from address `at`, each linked to the one behind its payload. */
  ghost predicate Laid(hdr: Headers, at: nat, bs: seq<Block>)
    decreases bs
  {
    bs == [] ||
    (&& at in hdr
     && hdr[at] == Header(bs[0].size, bs[0].free, if |bs| == 1 then 0 else at + 12 + bs[0].size)
     && Laid(hdr, at + 12 + bs[0].size, bs[1..]))
  }

  /** Whatever is written where no block of the list stands leaves the list laid out. */
  lemma {:induction false} LaidOther(hdr: Headers, at: nat, bs: seq<Block>, ptr: nat)
    requires Laid(hdr, at, bs) && IndexAt(at, bs, ptr) == |bs|
    ensures forall x {:trigger hdr[ptr - 12 := x]} :: ptr >= 12 ==> Laid(hdr[ptr - 12 := x], at, bs)
    decreases bs
  {
    if bs != [] {
      LaidOther(hdr, at + 12 + bs[0].size, bs[1..], ptr);
    }
  }

  lemma {:induction false} LaidSame(hdr: Headers, hdr': Headers, at: nat, bs: seq<Block>)
    requires Laid(hdr, at, bs)
    requires forall a :: at <= a && a in hdr ==> a in hdr' && hdr'[a] == hdr[a]
    ensures Laid(hdr', at, bs)
    decreases bs
  {
    if bs != [] {
      LaidSame(hdr, hdr', at + 12 + bs[0].size, bs[1..]);
    }
  }

  /** The header of block `i`. */
  lemma {:induction false} LaidAt(hdr: Headers, at: nat, bs: seq<Block>, i: nat)
    requires Laid(hdr, at, bs) && i < |bs|
    ensures var a := AddrOf(at, bs, i);
            && a in hdr && hdr[a] == Header(bs[i].size, bs[i].free, if i == |bs| - 1 then 0 else a + 12 + bs[i].size)
            && Laid(hdr, a, bs[i..])
    decreases bs
  {
    if i > 0 {
      LaidAt(hdr, at + 12 + bs[0].size, bs[1..], i - 1);
      assert bs[1..][i - 1..] == bs[i..];
    } else {
      assert bs[0..] == bs;
    }
  }

  /** Block `i` and the headers from it on are replaced; those before it stay. */
  lemma {:induction false} LaidUpTo(hdr: Headers, hdr': Headers, at: nat, bs: seq<Block>, bs': seq<Block>, i: nat)
    requires Laid(hdr, at, bs) && i < |bs| && i < |bs'| && bs'[..i] == bs[..i]
    requires forall a :: a in hdr && a < AddrOf(at, bs, i) ==> a in hdr' && hdr'[a] == hdr[a]
    requires Laid(hdr', AddrOf(at, bs, i), bs'[i..])
    ensures Laid(hdr', at, bs')
    decreases bs
  {
    if i == 0 {
      assert bs'[0..] == bs';
    } else {
      AddrBounds(at + 12 + bs[0].size, bs[1..], i - 1);
      assert bs'[0] == bs'[..i][0] == bs[..i][0] == bs[0];
      assert bs'[1..][..i - 1] == bs'[..i][1..] && bs[1..][..i - 1] == bs[..i][1..];
      assert bs'[1..][i - 1..] == bs'[i..];
      LaidUpTo(hdr, hdr', at + 12 + bs[0].size, bs[1..], bs'[1..], i - 1);
    }
  }

  /** Everything from the block after `i` on is laid out as before when only lower addresses were written. */
  lemma LaidRest(hdr: Headers, hdr': Headers, at: nat, bs: seq<Block>, i: nat)
    requires Laid(hdr, at, bs) && i < |bs|
    requires forall a :: AddrOf(at, bs, i) + 12 + bs[i].size <= a && a in hdr ==> a in hdr' && hdr'[a] == hdr[a]
    ensures Laid(hdr', AddrOf(at, bs, i) + 12 + bs[i].size, bs[i + 1..])
  {
    LaidAt(hdr, at, bs, i);
    assert bs[i..][1..] == bs[i + 1..];
    LaidSame(hdr, hdr', AddrOf(at, bs, i) + 12 + bs[i].size, bs[i + 1..]);
  }

  lemma {:induction false} AllocateSlices(bs: seq<Block>, i: nat, size: nat)
    requires i < |bs| && size <= bs[i].size
    ensures var a := Allocate(bs, i, size);
            && i < |a| && a[..i] == bs[..i]
            && a[i..] == (if bs[i].size >= size + 12 + 32 then [Block(size, false), Block(bs[i].size - size - 12, true)]
                          else [Block(bs[i].size, false)]) + bs[i + 1..]
  {
    if i > 0 {
      AllocateSlices(bs[1..], i - 1, size);
      var a, b := Allocate(bs, i, size), Allocate(bs[1..], i - 1, size);
      assert a[..i] == [bs[0]] + b[..i - 1] && a[i..] == b[i - 1..];
      assert bs[1..][i..] == bs[i + 1..] && bs[..i] == [bs[0]] + bs[1..][..i - 1];
    } else {
      assert bs[..0] == [] && Allocate(bs, 0, size)[0..] == Allocate(bs, 0, size);
    }
  }

  /** The header writes of `split_block` and the marking after it. */
  function SplitHeaders(hdr: Headers, block: nat, size: nat): Headers
    requires block in hdr && size <= hdr[block].size
  {
    var h := hdr[block];
    if h.size >= size + 12 + 32 then
      hdr[block + 12 + size := Header(h.size - size - 12, true, h.next)][block := Header(size, false, block + 12 + size)]
    else hdr[block := Header(h.size, false, h.next)]
  }

  lemma LaidAllocate(hdr: Headers, at: nat, bs: seq<Block>, i: nat, size: nat)
    requires Laid(hdr, at, bs) && i < |bs| && size <= bs[i].size
    ensures var a := AddrOf(at, bs, i);
            a in hdr && hdr[a].size == bs[i].size && Laid(SplitHeaders(hdr, a, size), at, Allocate(bs, i, size))
  {
    LaidAt(hdr, at, bs, i);
    AllocateSlices(bs, i, size);
    var a := AddrOf(at, bs, i);
    var hdr' := SplitHeaders(hdr, a, size);
    LaidRest(hdr, hdr', at, bs, i);
    var tail := Allocate(bs, i, size)[i..];
    if bs[i].size >= size + 12 + 32 {
      assert tail[1..] == [Block(bs[i].size - size - 12, true)] + bs[i + 1..];
      assert tail[1..][1..] == bs[i + 1..];
      assert Laid(hdr', a + 12 + size, tail[1..]);
    } else {
      assert tail[1..] == bs[i + 1..];
    }
    assert Laid(hdr', a, tail);
    LaidUpTo(hdr, hdr', at, bs, Allocate(bs, i, size), i);
  }

  lemma {:induction false} ReleaseSlices(bs: seq<Block>, i: nat)
    requires i < |bs|
    ensures Release(bs, i) == bs[..i] + [Block(bs[i].size, true)] + bs[i + 1..]
  {
    if i > 0 {
      ReleaseSlices(bs[1..], i - 1);
      assert bs[1..][i..] == bs[i + 1..] && bs[..i] == [bs[0]] + bs[1..][..i - 1];
    }
  }

  lemma LaidRelease(hdr: Headers, at: nat, bs: seq<Block>, i: nat)
    requires Laid(hdr, at, bs) && i < |bs|
    ensures var a := AddrOf(at, bs, i);
            a in hdr && Laid(hdr[a := Header(hdr[a].size, true, hdr[a].next)], at, Release(bs, i))
  {
    LaidAt(hdr, at, bs, i);
    ReleaseSlices(bs, i);
    var a, r := AddrOf(at, bs, i), Release(bs, i);
    var hdr' := hdr[a := Header(hdr[a].size, true, hdr[a].next)];
    LaidRest(hdr, hdr', at, bs, i);
    assert r[i..][1..] == bs[i + 1..] && r[..i] == bs[..i];
    assert Laid(hdr', a, r[i..]);
    LaidUpTo(hdr, hdr', at, bs, r, i);
  }

  /** Blocks `i` and `i + 1` joined into one free block. */
  function JoinAt(bs: seq<Block>, i: nat): (r: seq<Block>)
    requires i + 1 < |bs|
    ensures |r| == |bs| - 1
  {
    bs[..i] + [Block(bs[i].size + 12 + bs[i + 1].size, true)] + bs[i + 2..]
  }

  lemma LaidJoin(hdr: Headers, at: nat, bs: seq<Block>, i: nat)
    requires Laid(hdr, at, bs) && i + 1 < |bs|
    ensures var a := AddrOf(at, bs, i);
            && a in hdr && hdr[a].next in hdr
            && Laid(hdr[a := Header(hdr[a].size + 12 + hdr[hdr[a].next].size, true, hdr[hdr[a].next].next)], at, JoinAt(bs, i))
  {
    LaidAt(hdr, at, bs, i);
    assert bs[i..][1..] == bs[i + 1..];
    var a, r := AddrOf(at, bs, i), JoinAt(bs, i);
    var b := a + 12 + bs[i].size;
    assert hdr[b] == Header(bs[i + 1].size, bs[i + 1].free, if i + 1 == |bs| - 1 then 0 else b + 12 + bs[i + 1].size);
    var hdr' := hdr[a := Header(hdr[a].size + 12 + hdr[b].size, true, hdr[b].next)];
    assert bs[i + 1..][1..] == bs[i + 2..];
    LaidSame(hdr, hdr', b + 12 + bs[i + 1].size, bs[i + 2..]);
    assert r[i..][1..] == bs[i + 2..] && r[..i] == bs[..i];
    assert Laid(hdr', a, r[i..]);
    LaidUpTo(hdr, hdr', at, bs, r, i);
  }

  /** The header writes of `heap_expand`, `last` being the last block. */
  function ExtendHeaders(hdr: Headers, last: nat, end: nat, n: nat): Headers
    requires last in hdr && n >= 12
  {
    var h := hdr[last];
    if h.isFree then hdr[last := Header(h.size + n, true, h.next)]
    else hdr[end := Header(n - 12, true, 0)][last := Header(h.size, false, end)]
  }

  lemma {:induction false} LaidExtend(hdr: Headers, at: nat, bs: seq<Block>, n: nat)
    requires Laid(hdr, at, bs) && bs != [] && n >= 12
    ensures AddrOf(at, bs, |bs| - 1) in hdr
    ensures Laid(ExtendHeaders(hdr, AddrOf(at, bs, |bs| - 1), at + Span(bs), n), at, Extend(bs, n))
    decreases bs
  {
    var last := AddrOf(at, bs, |bs| - 1);
    LaidAt(hdr, at, bs, |bs| - 1);
    var hdr' := ExtendHeaders(hdr, last, at + Span(bs), n);
    var e := Extend(bs, n);
    if |bs| > 1 {
      LaidExtend(hdr, at + 12 + bs[0].size, bs[1..], n);
      AddrBounds(at + 12 + bs[0].size, bs[1..], |bs| - 2);
      assert e[1..] == Extend(bs[1..], n);
    } else if bs[0].free {
      assert e[1..] == [];
    } else {
      assert bs[1..] == [] && e[1..] == [Block(n - 12, true)] && e[1..][1..] == [];
    }
  }

  lemma {:induction false} AddrNext(at: nat, bs: seq<Block>, i: nat)
    requires i < |bs|
    ensures AddrOf(at, bs, i + 1) == AddrOf(at, bs, i) + 12 + bs[i].size
    decreases bs
  {
    if i > 0 {
      AddrNext(at + 12 + bs[0].size, bs[1..], i - 1);
    }
  }

  /** Joining two free neighbours is a step of `Merge`. */
  lemma MergeJoinStep(bs: seq<Block>, i: nat)
    requires i + 1 < |bs| && bs[i].free && bs[i + 1].free
    ensures JoinAt(bs, i)[..i] + Merge(JoinAt(bs, i)[i..]) == bs[..i] + Merge(bs[i..])
  {
    var r := JoinAt(bs, i);
    assert r[..i] == bs[..i];
    assert r[i..] == [Block(bs[i].size + 12 + bs[i + 1].size, true)] + bs[i..][2..];
  }

  lemma MergeSkipStep(bs: seq<Block>, i: nat)
    requires i + 1 < |bs| && !(bs[i].free && bs[i + 1].free)
    ensures bs[..i + 1] + Merge(bs[i + 1..]) == bs[..i] + Merge(bs[i..])
  {
    assert bs[i..][1..] == bs[i + 1..] && bs[..i + 1] == bs[..i] + [bs[i]];
  }

  lemma {:induction false} JoinKeepsAddr(at: nat, bs: seq<Block>, i: nat)
    requires i + 1 < |bs|
    ensures AddrOf(at, JoinAt(bs, i), i) == AddrOf(at, bs, i) && Span(JoinAt(bs, i)) == Span(bs)
    decreases bs
  {
    var r := JoinAt(bs, i);
    if i > 0 {
      JoinKeepsAddr(at + 12 + bs[0].size, bs[1..], i - 1);
      assert r[1..] == JoinAt(bs[1..], i - 1) by {
        assert bs[1..][..i - 1] == bs[..i][1..] && bs[1..][i + 1..] == bs[i + 2..];
      }
    } else {
      assert r[1..] == bs[2..] && bs[1..][1..] == bs[2..];
    }
  }

  /** A block that is not the last, and the one after it. */
  lemma LaidPair(hdr: Headers, at: nat, bs: seq<Block>, i: nat)
    requires Laid(hdr, at, bs) && i + 1 < |bs|
    ensures var a := AddrOf(at, bs, i);
            var b := AddrOf(at, bs, i + 1);
            && a in hdr && b in hdr && b > a
            && hdr[a] == Header(bs[i].size, bs[i].free, b)
            && hdr[b].size == bs[i + 1].size && hdr[b].isFree == bs[i + 1].free
            && (hdr[b].next != 0 <==> i + 2 < |bs|)
  {
    LaidAt(hdr, at, bs, i);
    LaidAt(hdr, at, bs, i + 1);
    AddrNext(at, bs, i);
  }

  /** One joining step, on headers and on the list. */
  lemma JoinStep(hdr: Headers, at: nat, bs: seq<Block>, i: nat)
    requires Laid(hdr, at, bs) && i + 1 < |bs| && bs[i].free && bs[i + 1].free
    ensures var a := AddrOf(at, bs, i);
            var b := AddrOf(at, bs, i + 1);
            && a in hdr && b in hdr && hdr[a].next == b
            && Laid(hdr[a := Header(hdr[a].size + 12 + hdr[b].size, true, hdr[b].next)], at, JoinAt(bs, i))
            && AddrOf(at, JoinAt(bs, i), i) == a
            && JoinAt(bs, i)[..i] + Merge(JoinAt(bs, i)[i..]) == bs[..i] + Merge(bs[i..])
  {
    LaidPair(hdr, at, bs, i);
    LaidJoin(hdr, at, bs, i);
    JoinKeepsAddr(at, bs, i);
    MergeJoinStep(bs, i);
  }

  /** The list of blocks in heap memory. */
  class BlockList {
    var firstBlock: nat
    var heapEnd: nat
    var totalAllocated: nat
    var hdr: Headers
    ghost var blocks: seq<Block>

    ghost function View(): HeapState
      reads this
    {
      HeapState(blocks, heapEnd, totalAllocated)
    }

    ghost predicate Valid()
      reads this
    {
      HeapInv(View()) && firstBlock == HEAP_START && Laid(hdr, HEAP_START, blocks)
    }

    /** The end of `kheap_init`: one big free block. */
    constructor ()
      ensures Valid() && View() == InitialHeap()
    {
      firstBlock, heapEnd, totalAllocated := HEAP_START, HEAP_START + INITIAL_HEAP_SIZE, 0;
      hdr := map[HEAP_START := Header(INITIAL_HEAP_SIZE - 12, true, 0)];
      blocks := InitialHeap().blocks;
      new;
      InitialInv();
      assert blocks[1..] == [];
    }

    /** `find_free_block`: an address, 0 standing for NULL. */
    method FindFreeBlock(size: nat) returns (block: nat, ghost i: nat)
      requires Valid()
      ensures i == FirstFit(blocks, size)
      ensures block == if i < |blocks| then AddrOf(HEAP_START, blocks, i) else 0
    {
      block, i := firstBlock, 0;
      assert blocks[0..] == blocks;
      while block != 0
        invariant i <= |blocks| && block == (if i < |blocks| then AddrOf(HEAP_START, blocks, i) else 0)
        invariant block == 0 ==> i == |blocks|
        invariant FirstFit(blocks, size) == i + FirstFit(blocks[i..], size)
        decreases |blocks| - i
      {
        LaidAt(hdr, HEAP_START, blocks, i);
        AddrNext(HEAP_START, blocks, i);
        if hdr[block].isFree && hdr[block].size >= size {
          return;
        }
        assert blocks[i..][1..] == blocks[i + 1..];
        AddrBounds(HEAP_START, blocks, i);
        block, i := hdr[block].next, i + 1;
      }
    }

    /** The walk of `heap_expand` to the last block. */
    method LastBlock() returns (block: nat)
      requires Valid()
      ensures block == AddrOf(HEAP_START, blocks, |blocks| - 1)
    {
      block := firstBlock;
      ghost var i := 0;
      LaidAt(hdr, HEAP_START, blocks, 0);
      while hdr[block].next != 0
        invariant i < |blocks| && block == AddrOf(HEAP_START, blocks, i) && block in hdr
        invariant hdr[block].next == if i == |blocks| - 1 then 0 else block + 12 + blocks[i].size
        decreases |blocks| - i
      {
        AddrNext(HEAP_START, blocks, i);
        LaidAt(hdr, HEAP_START, blocks, i + 1);
        block, i := hdr[block].next, i + 1;
      }
    }

    /** What `heap_expand` asks of the last block. */
    method LastIsFree() returns (b: bool)
      requires Valid()
      ensures b <==> blocks[|blocks| - 1].free
    {
      LaidAt(hdr, HEAP_START, blocks, |blocks| - 1);
      var block := LastBlock();
      b := hdr[block].isFree;
    }

    /** What `split_block` asks of the block found. */
    method Splits(block: nat, size: nat, ghost i: nat) returns (b: bool)
      requires Valid() && i < |blocks| && block == AddrOf(HEAP_START, blocks, i)
      ensures b <==> blocks[i].size >= size + 12 + 32
    {
      LaidAt(hdr, HEAP_START, blocks, i);
      b := hdr[block].size >= size + 12 + 32;
    }

    /** The list part of `heap_expand`. */
    method ExtendList(n: nat)
      requires Valid() && n >= 12 && n % 4096 == 0 && heapEnd + n <= HEAP_MAX
      modifies this
      ensures Valid() && View() == Grow(old(View()), n)
    {
      GrowInv(View(), n);
      LaidExtend(hdr, HEAP_START, blocks, n);
      var block := LastBlock();
      AddrBounds(HEAP_START, blocks, |blocks| - 1);
      if hdr[block].isFree {
        hdr := hdr[block := Header(hdr[block].size + n, true, hdr[block].next)];
      } else {
        hdr := hdr[heapEnd := Header(n - 12, true, 0)];
        hdr := hdr[block := Header(hdr[block].size, false, heapEnd)];
      }
      assert hdr == ExtendHeaders(old(hdr), block, heapEnd, n);
      heapEnd := heapEnd + n;
      blocks := Extend(blocks, n);
    }

    /** `split_block`, the marking and the counting at the end of `kmalloc`. */
    method TakeBlock(block: nat, size: nat, ghost i: nat) returns (ptr: nat)
      requires Valid() && i < |blocks| && block == AddrOf(HEAP_START, blocks, i) && blocks[i].free
      requires 0 < size <= blocks[i].size && size % 4 == 0
      modifies this
      ensures Valid() && (View(), ptr) == Give(old(View()), i, size)
    {
      GiveInv(View(), i, size);
      LaidAt(hdr, HEAP_START, blocks, i);
      LaidAllocate(hdr, HEAP_START, blocks, i, size);
      var h := hdr[block];
      if h.size >= size + 12 + 32 {
        hdr := hdr[block + 12 + size := Header(h.size - size - 12, true, h.next)];
        hdr := hdr[block := Header(size, h.isFree, block + 12 + size)];
      }
      hdr := hdr[block := Header(hdr[block].size, false, hdr[block].next)];
      assert hdr == SplitHeaders(old(hdr), block, size);
      totalAllocated := totalAllocated + hdr[block].size;
      blocks := Allocate(blocks, i, size);
      return block + 12;
    }

    /** `kheap_get_free`: the bytes of the free blocks, and every header. */
    method GetFree() returns (bytes: nat)
      requires Valid()
      ensures bytes == 12 * |blocks| + FreeBytes(blocks)
    {
      FreeCountsHeaders(blocks);
      bytes := Wrap(heapEnd - HEAP_START - totalAllocated);
    }

    /** `merge_free_blocks`. */
    method MergeFreeBlocks()
      requires firstBlock == HEAP_START && blocks != [] && Laid(hdr, HEAP_START, blocks)
      modifies this`hdr, this`blocks
      ensures blocks == Merge(old(blocks)) && Laid(hdr, HEAP_START, blocks)
    {
      var block := firstBlock;
      ghost var i, target := 0, Merge(blocks);
      assert blocks[0..] == blocks;
      LaidAt(hdr, HEAP_START, blocks, 0);
      while block != 0 && hdr[block].next != 0
        invariant i < |blocks| && block == AddrOf(HEAP_START, blocks, i) && block in hdr && block > 0
        invariant Laid(hdr, HEAP_START, blocks) && (hdr[block].next != 0 <==> i + 1 < |blocks|)
        invariant blocks[..i] + Merge(blocks[i..]) == target
        decreases |blocks| - i
      {
        LaidPair(hdr, HEAP_START, blocks, i);
        var next := hdr[block].next;
        if hdr[block].isFree && hdr[next].isFree {
          JoinStep(hdr, HEAP_START, blocks, i);
          hdr := hdr[block := Header(hdr[block].size + 12 + hdr[next].size, true, hdr[next].next)];
          blocks := JoinAt(blocks, i);
        } else {
          MergeSkipStep(blocks, i);
          block, i := next, i + 1;
        }
      }
      assert blocks == blocks[..i] + blocks[i..];
    }

    /**
     `kfree` on any word address that is not the link of the last block. `size` and `flag` are the words 12 and 8
     bytes below the pointer, which may or may not be a header of the list.
     */
    method Kfree(ptr: nat, size: nat, flag: nat)
      requires Valid() && Fits(Call.Kfree(ptr, size, flag)) && FreeAt(View(), ptr, size, flag).Some?
      requires ptr != 0 ==> size == WordAt(View(), ptr - 12, size) && flag == WordAt(View(), ptr - 8, flag)
      modifies this
      ensures Some(View()) == FreeAt(old(View()), ptr, size, flag)
      ensures Valid() <==> Harmless(old(View()), ptr, size, flag)
      ensures firstBlock == HEAP_START && Laid(hdr, HEAP_START, blocks)
    {
      KfreeKeeps(View(), ptr, size, flag);
      if ptr == 0 || flag != 0 {
        return;
      }
      if IndexAt(HEAP_START, blocks, ptr) < |blocks| {
        HeaderOf(HEAP_START, blocks, ptr);
      }
      MarkFree(ptr);
      totalAllocated := Wrap(totalAllocated - size);
      MergeFreeBlocks();
    }

    /** The write of a flag, which frees a block if there is one. */
    method MarkFree(ptr: nat)
      requires blocks != [] && Laid(hdr, HEAP_START, blocks)
      modifies this`hdr, this`blocks
      ensures blocks != [] && Laid(hdr, HEAP_START, blocks)
      ensures var i := IndexAt(HEAP_START, old(blocks), ptr);
              blocks == if i < |old(blocks)| then Release(old(blocks), i) else old(blocks)
    {
      ghost var i := IndexAt(HEAP_START, blocks, ptr);
      var block: int := ptr - 12;
      if i < |blocks| {
        AddrOfIndex(HEAP_START, blocks, ptr);
        LaidAt(hdr, HEAP_START, blocks, i);
        LaidRelease(hdr, HEAP_START, blocks, i);
        ReleaseSlices(blocks, i);
      } else {
        LaidOther(hdr, HEAP_START, blocks, ptr);
      }
      if block >= 0 && block in hdr {
        hdr := hdr[block := Header(hdr[block].size, true, hdr[block].next)];
      }
      blocks := if i < |blocks| then Release(blocks, i) else blocks;
    }
  }

  /**
   How `heap_expand` ended, besides its 0 or 1: not called; past `heap_max`; grown; out of frames after `pages`;
   grown or not although some page got no table (the source does not notice); or stopped at a table
   outside the direct-map window.
   */
  datatype Expansion = NotNeeded | Full | Grew | OutOfFrames(pages: nat) | TableMissing(grew: bool) | Stopped

  /** The loop went through, whether or not every page has a table. */
  predicate Went(r: Expansion) {
    r == Grew || r == TableMissing(true)
  }

  /** How far a growth got: `n` pages have frames, and `mid` is memory when the last of them had. */
  datatype Growth = Growth(n: nat, mid: Mem)

  /** Memory `now` after the rounds `h` from `page` on; `missed` says that the page after them got no table. */
  ghost predicate Growing(h: Vmm.Rounds, now: Mem, page: nat, missed: bool) {
    && Vmm.Genuine(h, page)
    && if missed then NoTableFor(h.m, page + Vmm.Count(h)) && now == Vmm.FrameTaken(h.m) else now == h.m
  }

  /** The round for `page` takes the last frame in reach and finds none for the table the page lacks. */
  predicate NoTableFor(m: Mem, page: nat) {
    Vmm.RoundResult(m, page) == Vmm.NoTableFrame && page !in m.flat
  }

  /** How the growth of `size` bytes from `page` ended, and why. */
  ghost predicate GrowthEnds(r: Expansion, g: Growth, now: Mem, page: nat, size: nat) {
    match r
    case Grew => 4096 * g.n == size && now == g.mid
    case OutOfFrames(pages) =>
      pages == g.n && 4096 * g.n < size && Vmm.RoundResult(g.mid, page + g.n) == Vmm.NoFrame && now == g.mid
    case TableMissing(grew) =>
      && 4096 * g.n < size && NoTableFor(g.mid, page + g.n) && now == Vmm.FrameTaken(g.mid)
      && (grew <==> 4096 * (g.n + 1) == size)
    case Stopped => 4096 * g.n < size && Vmm.RoundResult(g.mid, page + g.n) == Vmm.TableTooHigh
    case _ => false
  }

  /** A round after one that got no table finds no frame. */
  lemma NothingLeft(m: Mem, page: nat, next: nat)
    requires NoTableFor(m, page)
    ensures Vmm.RoundResult(Vmm.FrameTaken(m), next) == Vmm.NoFrame
  {
  }

  /** Where the growth loop is after `k` rounds. */
  ghost predicate LoopAt(h: Vmm.Rounds, now: Mem, page: nat, missed: bool, k: nat) {
    Growing(h, now, page, missed) && k == Vmm.Count(h) + if missed then 1 else 0
  }

  /** A round that fails after a page got no table, or before one did, ends the growth. */
  lemma GrowthStops(h: Vmm.Rounds, now: Mem, page: nat, missed: bool, k: nat, size: nat)
    requires LoopAt(h, now, page, missed, k) && 4096 * k < size
    requires missed || Vmm.RoundResult(h.m, page + Vmm.Count(h)) == Vmm.NoFrame
    ensures GrowthEnds(if missed then TableMissing(false) else OutOfFrames(k), Growth(Vmm.Count(h), h.m), now, page, size)
  {
  }

  lemma GrowthDone(h: Vmm.Rounds, now: Mem, page: nat, missed: bool, k: nat, size: nat)
    requires LoopAt(h, now, page, missed, k) && 4096 * k == size
    ensures GrowthEnds(if missed then TableMissing(true) else Grew, Growth(Vmm.Count(h), h.m), now, page, size)
  {
  }

  /** A round after a page that got no table: no frame is left, and the growth ends. */
  method GrowAfterMiss(paging: KernelPaging, vaddr: nat, ghost h: Vmm.Rounds, ghost page: nat, ghost k: nat, ghost size: nat)
    requires paging.Valid() && HEAP_START <= vaddr < HEAP_MAX && LoopAt(h, paging.View(), page, true, k) && 4096 * k < size
    modifies paging`store, paging`slots, paging`flat, paging.pmm`usedFrames, paging.pmm.bitmap
    ensures paging.Valid() && GrowthEnds(TableMissing(false), Growth(Vmm.Count(h), h.m), paging.View(), page, size)
  {
    NothingLeft(h.m, page + Vmm.Count(h), vaddr / 4096);
    GrowthStops(h, paging.View(), page, true, k, size);
    var p := Vmm.MapFresh(paging, vaddr, 3, vaddr / 4096);
  }

  /** A round of the growth loop while every page so far got its table, and whether it ends the growth. */
  method GrowOnePage(paging: KernelPaging, vaddr: nat, ghost h: Vmm.Rounds, ghost page: nat, done: nat, ghost size: nat)
    returns (stop: Option<Expansion>, missed: bool, ghost h': Vmm.Rounds)
    requires paging.Valid() && LoopAt(h, paging.View(), page, false, done) && 4096 * done < size
    requires HEAP_START <= vaddr < HEAP_MAX && vaddr == 4096 * (page + done)
    modifies paging`store, paging`slots, paging`flat, paging.pmm`usedFrames, paging.pmm.bitmap
    ensures stop != Some(Stopped) ==> paging.Valid()
    ensures Vmm.First(h') == Vmm.First(h) && Vmm.Genuine(h', page) && Vmm.Count(h') <= done + 1
    ensures stop.None? ==> LoopAt(h', paging.View(), page, missed, done + 1)
    ensures stop.Some? ==> GrowthEnds(stop.value, Growth(Vmm.Count(h'), h'.m), paging.View(), page, size)
  {
    var p;
    p, h' := Vmm.MapRound(paging, vaddr, 3, h, page, page + Vmm.Count(h));
    stop, missed := None, p == Vmm.NoTableFrame;
    if p == Vmm.NoFrame {
      GrowthStops(h, paging.View(), page, false, done, size);
      stop := Some(OutOfFrames(done));
    } else if p == Vmm.TableTooHigh {
      GrowthHalts(h, paging.View(), page, done, size);
      stop := Some(Stopped);
    } else {
      LoopGoesOn(h, h', paging.View(), page, missed, done + 1);
    }
  }

  lemma GrowthHalts(h: Vmm.Rounds, now: Mem, page: nat, done: nat, size: nat)
    requires done == Vmm.Count(h) && 4096 * done < size && Vmm.RoundResult(h.m, page + Vmm.Count(h)) == Vmm.TableTooHigh
    ensures GrowthEnds(Stopped, Growth(Vmm.Count(h), h.m), now, page, size)
  {
  }

  lemma LoopGoesOn(h: Vmm.Rounds, h': Vmm.Rounds, now: Mem, page: nat, missed: bool, k: nat)
    requires Vmm.Genuine(h', page) && k == Vmm.Count(h) + 1
    requires if missed then h' == h && NoTableFor(h.m, page + Vmm.Count(h)) && now == Vmm.FrameTaken(h.m)
             else now == h'.m && Vmm.Count(h') == k
    ensures LoopAt(h', now, page, missed, k)
  {
  }

  /** A round of the growth loop. */
  method GrowRound(paging: KernelPaging, vaddr: nat, missed: bool, ghost h: Vmm.Rounds, ghost page: nat, done: nat, ghost size: nat)
    returns (stop: Option<Expansion>, missed': bool, ghost h': Vmm.Rounds)
    requires paging.Valid() && LoopAt(h, paging.View(), page, missed, done) && 4096 * done < size
    requires HEAP_START <= vaddr < HEAP_MAX && vaddr == 4096 * (page + done)
    modifies paging`store, paging`slots, paging`flat, paging.pmm`usedFrames, paging.pmm.bitmap
    ensures stop != Some(Stopped) ==> paging.Valid()
    ensures Vmm.First(h') == Vmm.First(h) && Vmm.Genuine(h', page) && Vmm.Count(h') <= done + 1
    ensures stop.None? ==> LoopAt(h', paging.View(), page, missed', done + 1)
    ensures stop.Some? ==> GrowthEnds(stop.value, Growth(Vmm.Count(h'), h'.m), paging.View(), page, size)
  {
    if missed {
      GrowAfterMiss(paging, vaddr, h, page, done, size);
      stop, missed', h' := Some(TableMissing(false)), true, h;
    } else {
      stop, missed', h' := GrowOnePage(paging, vaddr, h, page, done, size);
    }
  }

  /**
   The mapping loop of `kheap_init` and `heap_expand`, which does not notice a page that got no table. Every page gets
   its frame and table if and only if memory suffices at the start.
   */
  method GrowPages(paging: KernelPaging, base: nat, size: nat) returns (r: Expansion, ghost g: Growth)
    requires paging.Valid() && base % 4096 == 0 && size % 4096 == 0
    requires HEAP_START <= base && base + size <= HEAP_MAX
    modifies paging`store, paging`slots, paging`flat, paging.pmm`usedFrames, paging.pmm.bitmap
    ensures !r.Stopped? ==> paging.Valid()
    ensures Grown(old(paging.View()), g.mid, base / 4096, g.n)
    ensures GrowthEnds(r, g, paging.View(), base / 4096, size)
    ensures r.Grew? <==> Suffices(old(paging.View()), base / 4096, size / 4096)
  {
    ghost var m, page, k := paging.View(), base / 4096, 0;
    ghost var h := Vmm.Start(m);
    var i, missed := 0, false;
    var stop: Option<Expansion> := None;
    while i < size && stop.None?
      invariant i == 4096 * k && k <= size / 4096 && Vmm.First(h) == m && Vmm.Genuine(h, page) && Vmm.Count(h) <= size / 4096
      invariant stop.None? ==> paging.Valid() && LoopAt(h, paging.View(), page, missed, k)
      invariant stop.Some? ==> GrowthEnds(stop.value, Growth(Vmm.Count(h), h.m), paging.View(), page, size)
      invariant stop.Some? && stop != Some(Stopped) ==> paging.Valid()
      decreases size - i, stop.None?
    {
      stop, missed, h := GrowRound(paging, base + i, missed, h, page, i / 4096, size);
      if stop.None? {
        i, k := i + 4096, k + 1;
      }
    }
    if stop.None? {
      GrowthDone(h, paging.View(), page, missed, k, size);
    }
    r, g := if stop.Some? then stop.value else if missed then TableMissing(true) else Grew, Growth(Vmm.Count(h), h.m);
    Vmm.RoundsGrow(h, page);
    GrowthExact(h, g, r, paging.View(), page, size);
  }

  /** The growth is whole exactly if memory sufficed for it. */
  lemma GrowthExact(h: Vmm.Rounds, g: Growth, r: Expansion, now: Mem, page: nat, size: nat)
    requires Vmm.Genuine(h, page) && g == Growth(Vmm.Count(h), h.m) && GrowthEnds(r, g, now, page, size) && size % 4096 == 0
    ensures r.Grew? <==> Suffices(Vmm.First(h), page, size / 4096)
  {
    if r.Grew? {
      Vmm.RoundsTally(h, page);
    } else {
      FailedRound(r, g, now, page, size);
      Vmm.FailureCounted(h, page, Vmm.First(h), g.n, Vmm.RoundResult(h.m, page + g.n));
      SufficesNoMore(Vmm.First(h), page, g.n + 1, size / 4096);
    }
  }

  lemma FailedRound(r: Expansion, g: Growth, now: Mem, page: nat, size: nat)
    requires GrowthEnds(r, g, now, page, size) && !r.Grew?
    ensures !Vmm.RoundResult(g.mid, page + g.n).AllMapped?
  {
  }

  /** Growing takes no page away. */
  lemma GrowthKeepsMapped(m: Mem, m': Mem, r: Expansion, end: nat, bytes: nat, g: Growth, bs: seq<Block>)
    requires Grown(m, g.mid, end / 4096, g.n) && GrowthEnds(r, g, m', end / 4096, bytes) && !r.Stopped?
    requires AllMapped(m.flat, HEAP_START, bs)
    ensures AllMapped(m'.flat, HEAP_START, bs)
  {
    forall p: nat | p in m.flat ensures p in g.mid.flat {
      assert Lookup(g.mid.flat, p) == Lookup(m.flat, p) || end / 4096 <= p < end / 4096 + g.n;
    }
    MappedMore(m.flat, m'.flat, HEAP_START, bs);
  }

  class KernelHeap {
    const paging: KernelPaging
    const list: BlockList

    /** The headers of the list all lie on mapped pages. */
    ghost predicate Valid()
      reads this, paging, paging.pmm, paging.pmm.bitmap, list
    {
      paging.Valid() && list.Valid() && AllMapped(paging.flat, HEAP_START, list.blocks)
    }

    /** `kheap_init`, when frames and tables for the first megabyte were found (`Grew`). */
    constructor (paging: KernelPaging, list: BlockList)
      requires paging.Valid() && list.Valid() && list.View() == InitialHeap() && HeaderMapped(paging.flat, HEAP_START)
      ensures this.paging == paging && this.list == list && Valid()
    {
      this.paging, this.list := paging, list;
      assert InitialHeap().blocks[1..] == [];
    }

    /** Whether the write of a header at `a` faults: the processor finds no page for one of its bytes. */
    method Unmapped(a: nat) returns (b: bool)
      requires paging.Valid() && a + 12 <= TWO32
      ensures b <==> !HeaderMapped(paging.flat, a)
    {
      assert forall p {:trigger Translate(paging.store, paging.dir, p)} ::
          0 <= p < PAGES ==> Translate(paging.store, paging.dir, p) == Lookup(paging.flat, p);
      b := Translate(paging.store, paging.dir, a / 4096).None? || Translate(paging.store, paging.dir, (a + 11) / 4096).None?;
    }

    /**
     `heap_expand`, from the point where the size is rounded to `bytes`, a whole number of pages. It halts the kernel
     (`faulted`) if the header of a new block falls on the page that got no table.
     */
    method HeapExpand(bytes: nat) returns (ok: bool, r: Expansion, ghost g: Growth, faulted: bool)
      requires Valid() && 12 <= bytes <= 0x3E00_2000 && bytes % 4096 == 0
      modifies paging, paging.pmm`usedFrames, paging.pmm.bitmap, list
      ensures ok <==> Went(r) && !faulted
      ensures !r.NotNeeded? && (!r.Stopped? && !faulted ==> Valid())
      ensures faulted <==> Went(r) && AppendFaults(paging.flat, old(list.View()))
      ensures list.View() == if ok then Grow(old(list.View()), bytes) else old(list.View())
      ensures r.Full? <==> old(list.heapEnd) + bytes > HEAP_MAX
      ensures PagesMoved(old(paging.View()), paging.View(), r, old(list.heapEnd), bytes, g)
    {
      g, faulted := Growth(0, paging.View()), false;
      if Wrap(list.heapEnd + bytes) > HEAP_MAX {
        return false, Full, g, false;
      }
      r, g := GrowPages(paging, list.heapEnd, bytes);
      if !r.Stopped? {
        GrowthKeepsMapped(old(paging.View()), paging.View(), r, list.heapEnd, bytes, g, list.blocks);
      }
      ok := Went(r);
      if ok {
        faulted := AppendBlock(bytes);
        ok := !faulted;
      }
    }

    /** The end of `heap_expand`. */
    method AppendBlock(bytes: nat) returns (faulted: bool)
      requires Valid() && 12 <= bytes && bytes % 4096 == 0 && list.heapEnd + bytes <= HEAP_MAX
      modifies list
      ensures faulted <==> AppendFaults(paging.flat, old(list.View()))
      ensures !faulted ==> Valid()
      ensures list.View() == if faulted then old(list.View()) else Grow(old(list.View()), bytes)
    {
      var isFree := list.LastIsFree();
      faulted := false;
      if !isFree {
        faulted := Unmapped(list.heapEnd);
      }
      if !faulted {
        MappedExtend(paging.flat, HEAP_START, list.blocks, bytes);
        list.ExtendList(bytes);
      }
    }

    /** The end of `kmalloc` for the block found. It halts the kernel if the header that a split writes is on no page. */
    method TakeFound(block: nat, s: nat, ghost i: nat) returns (ptr: nat, faulted: bool)
      requires Valid() && i == FirstFit(list.blocks, s) < |list.blocks| && block == AddrOf(HEAP_START, list.blocks, i)
      requires 0 < s && s % 4 == 0
      modifies list
      ensures faulted <==> SplitFaults(paging.flat, old(list.View()), s)
      ensures !faulted ==> Valid() && (list.View(), ptr) == Give(old(list.View()), i, s)
    {
      AddrBounds(HEAP_START, list.blocks, i);
      var splits := list.Splits(block, s, i);
      ptr, faulted := 0, false;
      if splits {
        faulted := Unmapped(block + 12 + s);
      }
      if !faulted {
        GiveMapped(paging.flat, list.View(), s, i);
        ptr := list.TakeBlock(block, s, i);
      }
    }

    /**
     `kmalloc`. It halts the kernel exactly when it writes a header where no page is mapped, which needs a growth that
     missed a page, this one or one before.
     */
    method Kmalloc(size: nat) returns (ptr: nat, r: Expansion, ghost g: Growth, faulted: bool)
      requires Valid() && Small(size)
      modifies paging, paging.pmm`usedFrames, paging.pmm.bitmap, list
      ensures faulted <==> !r.Stopped? && Faults(paging.flat, old(list.View()), size, Went(r))
      ensures !r.Stopped? && !faulted ==> Valid() && (list.View(), ptr) == Malloc(old(list.View()), size, Went(r))
      ensures PagesMoved(old(paging.View()), paging.View(), r, old(list.heapEnd), GrowBy(Round8(size)), g)
    {
      ptr, r, g, faulted := 0, NotNeeded, Growth(0, paging.View()), false;
      if size != 0 {
        SmallSums(size);
        var rounded := Round8(size);
        var block;
        ghost var i;
        block, i := list.FindFreeBlock(rounded);
        if i < |list.blocks| {
          AddrBounds(HEAP_START, list.blocks, i);
        }
        if block == 0 {
          ptr, r, g, faulted := GrowAndTake(size, rounded);
        } else {
          MallocGives(list.View(), size, false, list.View(), i);
          ptr, faulted := TakeFound(block, rounded, i);
        }
      }
    }

    /** The part of `kmalloc` for which no block was found. */
    method GrowAndTake(ghost size: nat, rounded: nat) returns (ptr: nat, r: Expansion, ghost g: Growth, faulted: bool)
      requires Valid() && 0 < size && Small(size) && rounded == Round8(size) && FirstFit(list.blocks, rounded) == |list.blocks|
      modifies paging, paging.pmm`usedFrames, paging.pmm.bitmap, list
      ensures faulted <==> !r.Stopped? && Faults(paging.flat, old(list.View()), size, Went(r))
      ensures !r.Stopped? && !faulted ==> Valid() && (list.View(), ptr) == Malloc(old(list.View()), size, Went(r))
      ensures PagesMoved(old(paging.View()), paging.View(), r, old(list.heapEnd), GrowBy(rounded), g)
    {
      SmallSums(size);
      MallocRefuses(list.View(), size);
      var ok;
      ptr := 0;
      ok, r, g, faulted := HeapExpand(GrowBy(rounded));
      if ok {
        ptr, faulted := TakeGrown(old(list.View()), size, rounded);
      }
    }

    /** The end of `kmalloc` once the heap `h` has grown: the second search always finds a block. */
    method TakeGrown(ghost h: HeapState, ghost size: nat, rounded: nat) returns (ptr: nat, faulted: bool)
      requires Valid() && 0 < size && Small(size) && rounded == Round8(size) && GrowBy(rounded) >= 12
      requires HeapInv(h) && FirstFit(h.blocks, rounded) == |h.blocks| && h.end + GrowBy(rounded) <= HEAP_MAX
      requires list.View() == Grow(h, GrowBy(rounded))
      modifies list
      ensures faulted <==> SplitFaults(paging.flat, Grow(h, GrowBy(rounded)), rounded)
      ensures !faulted ==> Valid() && (list.View(), ptr) == Malloc(h, size, true)
    {
      SmallSums(size);
      ExtendFits(h.blocks, GrowBy(rounded), rounded);
      var block;
      ghost var i;
      block, i := list.FindFreeBlock(rounded);
      MallocGives(h, size, true, list.View(), i);
      ptr, faulted := TakeFound(block, rounded, i);
    }

    /** `kfree`, which leaves the headers where they are. */
    method Kfree(ptr: nat, size: nat, flag: nat)
      requires Valid() && Fits(Call.Kfree(ptr, size, flag)) && FreeAt(list.View(), ptr, size, flag).Some?
      requires ptr != 0 ==> size == WordAt(list.View(), ptr - 12, size) && flag == WordAt(list.View(), ptr - 8, flag)
      modifies list
      ensures Some(list.View()) == FreeAt(old(list.View()), ptr, size, flag)
      ensures Valid() <==> Harmless(old(list.View()), ptr, size, flag)
    {
      FreeMapped(paging.flat, list.View(), ptr, size, flag);
      list.Kfree(ptr, size, flag);
    }

    /** `kmalloc_aligned`; `ptr` is the payload that the aligned range of `size` bytes lies in. */
    method KmallocAligned(size: nat) returns (aligned: nat, r: Expansion, ghost ptr: nat, faulted: bool)
      requires Valid() && Small(size + 4096)
      modifies paging, paging.pmm`usedFrames, paging.pmm.bitmap, list
      ensures faulted <==> !r.Stopped? && Faults(paging.flat, old(list.View()), size + 4096, Went(r))
      ensures !r.Stopped? && !faulted ==> Valid() && (list.View(), ptr) == Malloc(old(list.View()), size + 4096, Went(r))
      ensures !r.Stopped? && !faulted && aligned == 0 ==> ptr == 0
      ensures !r.Stopped? && !faulted && aligned != 0 ==>
                && aligned % 4096 == 0 && aligned == Aligned(ptr) && ptr in LiveIn(list.View())
                && ptr <= aligned && aligned + size <= ptr + LiveIn(list.View())[ptr]
    {
      var p;
      ghost var g;
      p, r, g, faulted := Kmalloc(size + 4096);
      ptr := p;
      if p == 0 {
        return 0, r, p, faulted;
      }
      aligned := Aligned(p);
      if !r.Stopped? && !faulted {
        AlignedInside(old(list.View()), size, Went(r));
      }
    }
  }

  /** What an allocation did to memory: nothing, or a growth from the end of the heap. */
  ghost predicate PagesMoved(m: Mem, m': Mem, r: Expansion, end: nat, bytes: nat, g: Growth) {
    if r.NotNeeded? || r.Full? then m' == m
    else
      && Grown(m, g.mid, end / 4096, g.n) && GrowthEnds(r, g, m', end / 4096, bytes)
      && (r.Grew? <==> Suffices(m, end / 4096, bytes / 4096))
  }

  /** `Malloc` when a block was found, in the heap as it is or as it has grown. */
  lemma MallocGives(h: HeapState, size: nat, grows: bool, h1: HeapState, i: nat)
    requires HeapInv(h) && 0 < size && Small(size) && i == FirstFit(h1.blocks, Round8(size)) < |h1.blocks|
    requires if FirstFit(h.blocks, Round8(size)) < |h.blocks| then h1 == h
             else grows && h.end + GrowBy(Round8(size)) <= HEAP_MAX && GrowBy(Round8(size)) >= 12 && h1 == Grow(h, GrowBy(Round8(size)))
    ensures Malloc(h, size, grows) == Give(h1, i, Round8(size))
  {
    SmallSums(size);
  }

  /** `Malloc` when no block was found and the heap did not grow. */
  lemma MallocRefuses(h: HeapState, size: nat)
    requires HeapInv(h) && 0 < size && Small(size) && FirstFit(h.blocks, Round8(size)) == |h.blocks|
    ensures Malloc(h, size, false) == (h, 0)
  {
  }
}
