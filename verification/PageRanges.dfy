/** Mapping and releasing a range of pages, frame by frame: what the loops of kernel/vmm.c and kernel/kheap.c do to memory. */
module PageRanges {
  import opened Words
  import opened FrameBitmap
  import opened Pmm
  import opened Paging

  /** The frames behind the pages `[page, page + n)`. */
  ghost function Behind(flat: map<nat, nat>, page: nat, n: nat): set<nat> {
    if n == 0 then {}
    else Behind(flat, page, n - 1) + if page + n - 1 in flat then {flat[page + n - 1]} else {}
  }

  lemma BehindMember(flat: map<nat, nat>, page: nat, n: nat, f: nat)
    ensures f in Behind(flat, page, n) <==> exists p :: page <= p < page + n && p in flat && flat[p] == f
  {
    if n > 0 {
      BehindMember(flat, page, n - 1, f);
      if page + n - 1 in flat && flat[page + n - 1] == f {
        assert page <= page + n - 1 < page + n;
      }
    }
  }

  /** Only the pages of the range matter. */
  lemma BehindSame(flat: map<nat, nat>, flat': map<nat, nat>, page: nat, n: nat)
    requires forall p: nat :: page <= p < page + n ==> Lookup(flat, p) == Lookup(flat', p)
    ensures Behind(flat, page, n) == Behind(flat', page, n)
  {
    if n > 0 {
      BehindSame(flat, flat', page, n - 1);
      assert Lookup(flat, page + n - 1) == Lookup(flat', page + n - 1);
    }
  }

  /** The flat map without the pages `[page, page + n)`. */
  function Drop(flat: map<nat, nat>, page: nat, n: nat): map<nat, nat> {
    if n == 0 then flat else Drop(flat, page, n - 1) - {page + n - 1}
  }

  lemma DropLookup(flat: map<nat, nat>, page: nat, n: nat, p: nat)
    ensures Lookup(Drop(flat, page, n), p) == if page <= p < page + n then None else Lookup(flat, p)
  {
  }

  ghost predicate Injective(flat: map<nat, nat>, page: nat, n: nat) {
    forall p, q :: page <= p < q < page + n && p in flat && q in flat ==> flat[p] != flat[q]
  }

  /**
   From `m` to `m'` the pages `[page, page + n)` have each been given a frame of their own out of the clear ones,
   some clear frames have become page tables, and nothing else has changed.
   */
  ghost predicate Grown(m: Mem, m': Mem, page: nat, n: nat) {
    && m'.frames.total == m.frames.total
    && m.tables <= m'.tables
    && m'.frames.clear <= m.frames.clear
    && (forall p: nat :: page <= p < page + n ==> p in m'.flat)
    && (forall p: nat :: !(page <= p < page + n) ==> Lookup(m'.flat, p) == Lookup(m.flat, p))
    && Injective(m'.flat, page, n)
    && m.frames.clear - m'.frames.clear == (m'.tables - m.tables) + Behind(m'.flat, page, n)
    && (m'.tables - m.tables) !! Behind(m'.flat, page, n)
  }

  lemma NotBehind(m: Mem, m1: Mem, page: nat, n: nat, f: nat)
    requires Grown(m, m1, page, n) && f in m1.frames.clear
    ensures f !in Behind(m1.flat, page, n)
    ensures forall p :: page <= p < page + n && p in m1.flat ==> m1.flat[p] != f
  {
    forall p | page <= p < page + n && p in m1.flat ensures m1.flat[p] in Behind(m1.flat, page, n) {
      BehindMember(m1.flat, page, n, m1.flat[p]);
    }
  }

  /** Of the frames that are clear no longer, one more is behind a page and those in `t` are tables. */
  lemma TakenFrames(m: Mem, m1: Mem, m2: Mem, behind: set<nat>, f: nat, t: set<nat>)
    requires m.tables !! m.frames.clear && m1.frames.clear <= m.frames.clear && m.tables <= m1.tables
    requires m.frames.clear - m1.frames.clear == (m1.tables - m.tables) + behind
    requires (m1.tables - m.tables) !! behind
    requires f in m1.frames.clear && t <= m1.frames.clear - {f}
    requires m2.frames.clear == m1.frames.clear - {f} - t && m2.tables == m1.tables + t
    ensures m2.frames.clear <= m.frames.clear && m.tables <= m2.tables
    ensures m.frames.clear - m2.frames.clear == (m2.tables - m.tables) + (behind + {f})
    ensures (m2.tables - m.tables) !! (behind + {f})
  {
  }

  /** One round of a mapping loop: a frame is allocated and mapped at the next page. */
  lemma GrownOneMore(m: Mem, m1: Mem, page: nat, n: nat, f: nat)
    requires Sane(m) && Sane(m1) && Grown(m, m1, page, n) && NextFrame(m1.frames) == Some(f)
    requires MapStep(m1.(frames := Take(m1.frames, f)), page + n, f).1 == Mapped
    ensures Grown(m, MapStep(m1.(frames := Take(m1.frames, f)), page + n, f).0, page, n + 1)
  {
    var m2 := MapStep(m1.(frames := Take(m1.frames, f)), page + n, f).0;
    var behind := Behind(m1.flat, page, n);
    BehindSame(m1.flat, m2.flat, page, n);
    assert Behind(m2.flat, page, n + 1) == behind + {f};
    assert m2.flat == m1.flat[page + n := f];
    NotBehind(m, m1, page, n, f);
    TakenFrames(m, m1, m2, behind, f, m2.tables - m1.tables);
  }

  lemma BehindFirst(flat: map<nat, nat>, page: nat, n: nat)
    requires n > 0 && page in flat
    ensures Behind(flat, page, n) == {flat[page]} + Behind(flat, page + 1, n - 1)
  {
    if n > 1 {
      BehindFirst(flat, page, n - 1);
    }
  }

  /** What one round of a releasing loop does: the first page of the range goes, and its frame is clear again. */
  function ReleaseStep(m: Mem, page: nat): Mem
    requires page in m.flat
  {
    UnmapStep(m, page).(frames := Give(m.frames, m.flat[page]))
  }

  lemma FirstNotBehindRest(flat: map<nat, nat>, page: nat, n: nat)
    requires n > 0 && page in flat && Injective(flat, page, n)
    ensures flat[page] !in Behind(flat, page + 1, n - 1)
  {
    BehindMember(flat, page + 1, n - 1, flat[page]);
  }

  lemma GrownOneLess(m: Mem, m1: Mem, page: nat, n: nat)
    requires Grown(m, m1, page, n) && n > 0
    ensures Grown(m.(flat := m.flat - {page}), ReleaseStep(m1, page), page + 1, n - 1)
  {
    var f := m1.flat[page];
    var m2 := ReleaseStep(m1, page);
    BehindFirst(m1.flat, page, n);
    FirstNotBehindRest(m1.flat, page, n);
    BehindSame(m1.flat, m2.flat, page + 1, n - 1);
    var rest := Behind(m1.flat, page + 1, n - 1);
    ReleasedFrames(m, m1, m2, f, rest);
    forall p: nat | !(page + 1 <= p < page + n) ensures Lookup(m2.flat, p) == Lookup(m.flat - {page}, p) {
      assert p != page ==> Lookup(m1.flat, p) == Lookup(m.flat, p);
    }
  }

  lemma ReleasedFrames(m: Mem, m1: Mem, m2: Mem, f: nat, rest: set<nat>)
    requires m1.frames.clear <= m.frames.clear && m2.tables == m1.tables && f !in rest
    requires m.frames.clear - m1.frames.clear == (m1.tables - m.tables) + ({f} + rest)
    requires (m1.tables - m.tables) !! ({f} + rest)
    requires m2.frames == Give(m1.frames, f)
    ensures m2.frames.clear <= m.frames.clear && m2.frames.total == m1.frames.total
    ensures m.frames.clear - m2.frames.clear == (m2.tables - m.tables) + rest
  {
    assert f in m.frames.clear - m1.frames.clear;
    assert m2.frames.clear == m1.frames.clear + {f};
  }

  lemma LookupDecides(a: map<nat, nat>, b: map<nat, nat>)
    requires forall p: nat :: Lookup(a, p) == Lookup(b, p)
    ensures a == b
  {
    forall p: nat ensures p in a <==> p in b {
      assert Lookup(a, p) == Lookup(b, p);
    }
    forall p: nat | p in a ensures a[p] == b[p] {
      assert Lookup(a, p) == Lookup(b, p);
    }
  }

  /** Memory with the pages of a range unmapped and their frames clear: where mapping that range could have started. */
  ghost function Released(m: Mem, page: nat, n: nat): Mem {
    m.(flat := Drop(m.flat, page, n),
       frames := Frames(m.frames.clear + Behind(m.flat, page, n), m.frames.total, m.frames.used))
  }

  /** The pages of a range are mapped, each to a frame of its own that is neither clear nor a table. */
  ghost predicate Owned(m: Mem, page: nat, n: nat) {
    && (forall p: nat :: page <= p < page + n ==> p in m.flat && 256 <= m.flat[p] < BITMAP_FRAMES)
    && (forall p: nat :: page <= p < page + n ==> m.flat[p] !in m.frames.clear && m.flat[p] !in m.tables)
    && Injective(m.flat, page, n)
  }

  lemma OwnedCouldGrow(m: Mem, page: nat, n: nat)
    requires Owned(m, page, n)
    ensures Grown(Released(m, page, n), m, page, n)
  {
    forall f ensures f in Behind(m.flat, page, n) ==> f !in m.frames.clear && f !in m.tables {
      BehindMember(m.flat, page, n, f);
    }
    forall p: nat | !(page <= p < page + n) ensures Lookup(m.flat, p) == Lookup(Drop(m.flat, page, n), p) {
      DropLookup(m.flat, page, n, p);
    }
  }

  /**
   `m'` is `m` with nothing mapped at the pages `[page, page + n)`; frames that became page tables on the way
   stay taken, every other frame is as it was.
   */
  ghost predicate Undone(m: Mem, m': Mem, page: nat, n: nat) {
    && m'.flat == Drop(m.flat, page, n)
    && m.tables <= m'.tables
    && m'.tables - m.tables <= m.frames.clear
    && m'.frames.clear == m.frames.clear - (m'.tables - m.tables)
    && m'.frames.total == m.frames.total
  }

  lemma GrownByNothing(m: Mem, now: Mem, m': Mem, page: nat, n: nat, end: nat, left: nat)
    requires left == 0 && Grown(now, m', end, left) && now == m.(flat := Drop(m.flat, page, n))
    ensures Undone(m, m', page, n)
  {
    LookupDecides(m'.flat, now.flat);
  }
}
