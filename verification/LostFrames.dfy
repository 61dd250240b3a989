/** Frames that a failed growth of the heap leaves with no owner. */
module LostFrames {
  import opened Words
  import opened Pmm
  import opened Paging
  import opened PageRanges
  import opened Regions
  import opened Vmm
  import opened Ownership
  import KernelHeap

  /** Neither clear, nor a page table, nor behind a managed page: nobody has the frame, and nobody can give it back. */
  ghost predicate Lost(s: State, f: nat) {
    f !in s.mem.frames.clear && f !in s.mem.tables && forall p: nat :: Managed(s, p) ==> Lookup(s.mem.flat, p) != Some(f)
  }

  lemma GrownLoses(s: State, s': State, kend: nat, page: nat, n: nat, f: nat)
    requires Owns(s, kend) && Lost(s, f) && Grown(s.mem, s'.mem, page, n)
    requires forall p: nat :: Managed(s', p) ==> Managed(s, p) || page <= p < page + n
    ensures Lost(s', f)
  {
    assert f in s'.mem.tables ==> f in s'.mem.tables - s.mem.tables;
    assert f !in s.mem.frames.clear - s'.mem.frames.clear;
    forall p: nat | Managed(s', p) ensures Lookup(s'.mem.flat, p) != Some(f) {
      if page <= p < page + n {
        NewlyHeld(s.mem, s'.mem, page, n, p);
      } else {
        assert Lookup(s'.mem.flat, p) == Lookup(s.mem.flat, p);
      }
    }
  }

  lemma RolledBackLoses(s: State, s': State, r: Region, n: nat, f: nat)
    requires Lost(s, f) && Happens(s, MapRolledBack(r, n), s')
    ensures Lost(s', f)
  {
    forall p: nat | Managed(s', p) ensures Lookup(s'.mem.flat, p) != Some(f) {
      assert Managed(s, p);
      DropLookup(s.mem.flat, r.base / 4096, n, p);
    }
  }

  lemma UnmappedLoses(s: State, s': State, kend: nat, vaddr: nat, f: nat)
    requires Owns(s, kend) && Lost(s, f) && Happens(s, RegionUnmapped(vaddr), s')
    ensures Lost(s', f)
  {
    var k := FirstAt(s.regions, vaddr);
    var r := s.regions[k];
    assert r in s.regions;
    var page, n := r.base / 4096, r.size / 4096;
    forall p | page <= p < page + n && p in s.mem.flat ensures s.mem.flat[p] != f {
      RegionPages(r, p);
      MappedNotBoot(s, kend, k, p);
      assert Lookup(s.mem.flat, p) != Some(f);
    }
    BehindMember(s.mem.flat, page, n, f);
    forall p: nat | Managed(s', p) ensures Lookup(s'.mem.flat, p) != Some(f) {
      InRegionWithout(s.regions, k, p);
      assert Managed(s, p);
      DropLookup(s.mem.flat, page, n, p);
    }
  }

  lemma RegionMappedLoses(s: State, s': State, kend: nat, r: Region, n: nat, f: nat)
    requires Owns(s, kend) && Lost(s, f) && Happens(s, RegionMapped(r, n), s')
    ensures Lost(s', f)
  {
    forall p: nat | Managed(s', p) ensures Managed(s, p) || r.base / 4096 <= p < r.base / 4096 + n {
      RegionPages(r, p);
      InRegionInserted(s.regions, r, p);
    }
    GrownLoses(s, s', kend, r.base / 4096, n, f);
  }

  lemma MissedLoses(s: State, s': State, kend: nat, g: KernelHeap.Growth, f: nat)
    requires Owns(s, kend) && Lost(s, f) && Happens(s, HeapLostFrame(g), s')
    ensures Lost(s', f)
  {
    var mid := s.(mem := g.mid);
    GrownLoses(s, mid, kend, s.heapEnd, g.n, f);
    forall p: nat | Managed(s', p) ensures Lookup(s'.mem.flat, p) != Some(f) {
      assert Managed(mid, p);
    }
  }

  /** No event gives a lost frame back. */
  lemma LostStays(s: State, e: Event, s': State, kend: nat, f: nat)
    requires Owns(s, kend) && Lost(s, f) && Happens(s, e, s')
    ensures Lost(s', f)
  {
    match e
    case RegionMapped(r, n) => RegionMappedLoses(s, s', kend, r, n, f);
    case MapRolledBack(r, n) => RolledBackLoses(s, s', r, n, f);
    case RegionUnmapped(vaddr) => UnmappedLoses(s, s', kend, vaddr, f);
    case HeapGrown(n) => GrownLoses(s, s', kend, s.heapEnd, n, f);
    case HeapStuck(n) => GrownLoses(s, s', kend, s.heapEnd, n, f);
    case HeapLostFrame(g) => MissedLoses(s, s', kend, g, f);
  }

  /** The invariant, and the frame lost. */
  ghost predicate Wants(s: State, kend: nat, f: nat) {
    Owns(s, kend) && Lost(s, f)
  }

  lemma StillWants(s: State, e: Event, s': State, kend: nat, f: nat)
    requires Wants(s, kend, f) && Happens(s, e, s')
    ensures Wants(s', kend, f)
  {
    EventOwns(s, e, s', kend);
    LostStays(s, e, s', kend, f);
  }

  /** So it is lost for the rest of every run. */
  lemma {:induction false} LostForever(states: seq<State>, events: seq<Event>, kend: nat, i: nat, n: nat, f: nat)
    requires IsRun(states, events) && i <= n < |states| && Wants(states[i], kend, f)
    ensures Wants(states[n], kend, f)
    decreases n
  {
    if n > i {
      LostForever(states, events, kend, i, n - 1, f);
      assert Happens(states[n - 1], events[n - 1], states[n - 1 + 1]);
      StillWants(states[n - 1], events[n - 1], states[n], kend, f);
    }
  }

  /** A growth that runs out of frames loses the frame of each page it had mapped. */
  lemma StuckGrowthLoses(s: State, s': State, kend: nat, n: nat, p: nat)
    requires Owns(s, kend) && Happens(s, HeapStuck(n), s') && s.heapEnd <= p < s.heapEnd + n
    ensures p in s'.mem.flat && s'.mem.flat[p] in s.mem.frames.clear && Lost(s', s'.mem.flat[p])
  {
    var f := s'.mem.flat[p];
    NewlyHeld(s.mem, s'.mem, s.heapEnd, n, p);
    forall q: nat | Managed(s', q) ensures Lookup(s'.mem.flat, q) != Some(f) {
      assert Managed(s, q) && !Managed(s, p);
      StillHeld(s.mem, s'.mem, s.heapEnd, n, q);
    }
  }

  /** A growth that misses a table loses the frame of that page as well. */
  lemma MissedTableLoses(s: State, s': State, kend: nat, g: KernelHeap.Growth, f: nat)
    requires Owns(s, kend) && Happens(s, HeapLostFrame(g), s') && NextFrame(g.mid.frames) == Some(f)
    ensures f in s.mem.frames.clear && Lost(s', f)
  {
    var mid := s.(mem := g.mid);
    assert Happens(s, HeapStuck(g.n), mid);
    HeapOwns(s, mid, kend, g.n);
    forall q: nat | Managed(s', q) ensures Lookup(s'.mem.flat, q) != Some(f) {
      assert Managed(mid, q) && Held(mid.mem, q);
    }
  }
}
