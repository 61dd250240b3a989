/** kernel/paging.c over the frame allocator: tables are taken from it and reached through the direct map. */
module Paging {
  import opened Words
  import opened FrameBitmap
  import opened Pmm
  import opened PageTables

  const PAGES := 0x10_0000
  const KERNEL_PAGE := 0xC0000

  /**
   The abstract view: the allocator, the frames that hold tables or directories, the directory slots that
   have a table, and the flat map from virtual page to frame.
   */
  datatype Mem = Mem(frames: Frames, tables: set<nat>, slots: set<nat>, flat: map<nat, nat>)

  /**
   What became of `paging_map_page`, which returns nothing in the source: the page is mapped, or no frame was
   left for its table, or the table's frame lies outside the direct-map window, where the model stops.
   */
  datatype Outcome = Mapped | NoTable | HighTable

  function MapStep(m: Mem, page: nat, frame: nat): (Mem, Outcome) {
    if page / 1024 in m.slots then (m.(flat := m.flat[page := frame]), Mapped)
    else
      match NextFrame(m.frames)
      case None => (m, NoTable)
      case Some(t) =>
        var m' := m.(frames := Take(m.frames, t));
        if t >= 1024 then (m', HighTable)
        else (m'.(tables := m.tables + {t}, slots := m.slots + {page / 1024}, flat := m.flat[page := frame]), Mapped)
  }

  function UnmapStep(m: Mem, page: nat): Mem {
    m.(flat := m.flat - {page})
  }

  /** Page 0xC0000001 up to 0xC00003FF: where the kernel expects frames 1 to 1023. */
  predicate InWindow(page: nat) {
    KERNEL_PAGE < page < KERNEL_PAGE + 1024
  }

  ghost predicate Windowed(flat: map<nat, nat>) {
    forall p: nat :: InWindow(p) ==> p in flat && flat[p] == p - KERNEL_PAGE
  }

  /** Tables are never clear; clear frames lie above the first megabyte and inside the bitmap; the window is intact. */
  ghost predicate Sane(m: Mem) {
    && m.tables !! m.frames.clear
    && (forall f :: f in m.frames.clear ==> 256 <= f < BITMAP_FRAMES)
    && (forall p :: p in m.flat ==> p < PAGES)
    && Windowed(m.flat)
  }

  lemma MapStepSane(m: Mem, page: nat, frame: nat)
    requires Sane(m) && page < PAGES && !InWindow(page)
    ensures MapStep(m, page, frame).1 != HighTable ==> Sane(MapStep(m, page, frame).0)
  {
  }

  lemma UnmapStepSane(m: Mem, page: nat)
    requires Sane(m) && !InWindow(page)
    ensures Sane(UnmapStep(m, page))
  {
  }

  /** The translation of virtual page `p`, which is directory slot `p / 1024` and table slot `p % 1024`. */
  function Translate(store: Store, dir: nat, p: nat): Option<nat> {
    Walk(store, dir, p / 1024, p % 1024)
  }

  function Lookup(flat: map<nat, nat>, p: nat): Option<nat> {
    if p in flat then Some(flat[p]) else None
  }

  /** The directory in frame `dir` of `store` is well formed and stands for `m`. */
  ghost predicate Tied(store: Store, dir: nat, m: Mem) {
    && WellFormed(store, dir)
    && store.Keys == m.tables
    && (forall i {:trigger HasTable(store, dir, i)} :: HasTable(store, dir, i) <==> i in m.slots)
    && (forall i {:trigger HasTable(store, dir, i)} :: HasTable(store, dir, i) ==> 1 <= TableOf(store, dir, i) < 1024)
    && (forall p {:trigger Translate(store, dir, p)} :: 0 <= p < PAGES ==> Translate(store, dir, p) == Lookup(m.flat, p))
  }

  /** A page without a table is not mapped. */
  lemma NoTableNoPage(store: Store, dir: nat, m: Mem, page: nat)
    requires Tied(store, dir, m) && page < PAGES && page / 1024 !in m.slots
    ensures page !in m.flat
  {
    assert !HasTable(store, dir, page / 1024);
    assert Translate(store, dir, page) == Lookup(m.flat, page);
  }

  lemma TranslateUpdate(s: Store, store: Store, dir: nat, page: nat, result: Option<nat>)
    requires forall k, l :: Walk(s, dir, k, l) == if k == page / 1024 && l == page % 1024 then result else Walk(store, dir, k, l)
    ensures forall p: nat :: Translate(s, dir, p) == if p == page then result else Translate(store, dir, p)
  {
    forall p: nat
      ensures Translate(s, dir, p) == if p == page then result else Translate(store, dir, p)
    {
      assert p == page <==> p / 1024 == page / 1024 && p % 1024 == page % 1024;
    }
  }

  /** A frame taken for a table becomes one; nothing is translated differently. */
  lemma TableAdded(store: Store, dir: nat, m: Mem, i: nat, flags: nat, t: nat)
    requires Tied(store, dir, m) && i < 1024 && i !in m.slots && t !in m.tables && 1 <= t < 1024
    ensures Tied(WithTable(store, dir, i, flags, t), dir, m.(tables := m.tables + {t}, slots := m.slots + {i}))
    ensures WithTable(store, dir, i, flags, t)[dir] == store[dir][i := DirectoryEntry(t, flags)]
    ensures WithTable(store, dir, i, flags, t)[t] == seq(1024, _ => Entry(false, 0, 0))
  {
    WithTableKeeps(store, dir, i, flags, t);
    var s := WithTable(store, dir, i, flags, t);
    forall k
      ensures HasTable(s, dir, k) <==> k == i || HasTable(store, dir, k)
      ensures HasTable(s, dir, k) && k != i ==> TableOf(s, dir, k) == TableOf(store, dir, k)
    {
    }
    forall p: nat ensures Translate(s, dir, p) == Translate(store, dir, p) {
    }
  }

  /** One written entry changes the flat map at its own page. */
  lemma EntryWritten(store: Store, dir: nat, m: Mem, page: nat, e: Entry)
    requires Tied(store, dir, m) && page < PAGES && page / 1024 in m.slots
    ensures HasTable(store, dir, page / 1024) && IsTable(store, TableOf(store, dir, page / 1024))
    ensures Tied(Write(store, TableOf(store, dir, page / 1024), page % 1024, e), dir,
                 m.(flat := if e.present then m.flat[page := e.frame] else m.flat - {page}))
  {
    assert HasTable(store, dir, page / 1024);
    var s := Write(store, TableOf(store, dir, page / 1024), page % 1024, e);
    WriteEntry(store, dir, page / 1024, page % 1024, e);
    TranslateUpdate(s, store, dir, page, if e.present then Some(e.frame) else None);
    forall k
      ensures HasTable(s, dir, k) <==> HasTable(store, dir, k)
      ensures TableOf(s, dir, k) == TableOf(store, dir, k)
    {
      assert EntryAt(s, dir, k) == EntryAt(store, dir, k);
    }
  }

  /** In the window `PHYS_TO_VIRT` reaches the frame it names. */
  lemma WindowReached(store: Store, dir: nat, m: Mem, t: nat)
    requires Tied(store, dir, m) && Windowed(m.flat) && 1 <= t < 1024
    ensures Reached(store, dir, t) == Some(t)
  {
    assert InWindow(KERNEL_PAGE + t) && (KERNEL_PAGE + t) / 1024 == 768 && (KERNEL_PAGE + t) % 1024 == t;
    assert Translate(store, dir, KERNEL_PAGE + t) == Some(t);
  }

  /** Every table in use is reached through `PHYS_TO_VIRT`, because the window is intact and tables lie in it. */
  lemma TablesReached(store: Store, dir: nat, m: Mem, i: nat)
    requires Tied(store, dir, m) && Windowed(m.flat) && HasTable(store, dir, i)
    ensures IsTable(store, TableOf(store, dir, i))
    ensures Reached(store, dir, TableOf(store, dir, i)) == Some(TableOf(store, dir, i))
  {
    WindowReached(store, dir, m, TableOf(store, dir, i));
  }

  /** The first `n` static tables are filled in and named by the directory. */
  ghost predicate Built(directory: seq<Entry>, store: Store, tables: seq<nat>, n: nat)
    requires |tables| == 4 && n <= 4
  {
    && |directory| == 1024
    && (forall i :: 0 <= i < 1024 ==> directory[i] == if 768 <= i < 768 + n then Entry(true, tables[i - 768], 1) else Entry(false, 0, 1))
    && (forall f :: f in store <==> f in tables[..n])
    && (forall t :: 0 <= t < n ==> IsTable(store, tables[t]))
    && (forall t, k :: 0 <= t < n && 0 <= k < 1024 ==> EntryAt(store, tables[t], k) == Entry(true, t * 1024 + k, 1))
  }

  /** What `paging_init` maps: the first 16 MB of physical memory, at 0xC0000000. */
  function BootFlat(): (flat: map<nat, nat>)
    ensures forall p: nat :: Lookup(flat, p) == if InDirectMap(p) then Some(p - KERNEL_PAGE) else None
  {
    map p: nat | p < PAGES && InDirectMap(p) :: p - KERNEL_PAGE
  }

  predicate InDirectMap(p: nat) {
    KERNEL_PAGE <= p < KERNEL_PAGE + 4096
  }

  lemma BuiltIsTied(frames: Frames, built: Store, dir: nat, directory: seq<Entry>, tables: seq<nat>)
    requires |tables| == 4 && dir !in built && Built(directory, built, tables, 4)
    requires forall t :: 0 <= t < 4 ==> 1 <= tables[t] < 1024
    requires forall s, t :: 0 <= s < t < 4 ==> tables[s] != tables[t]
    ensures Tied(built[dir := directory], dir, Mem(frames, built.Keys + {dir}, {768, 769, 770, 771}, BootFlat()))
  {
    var store := built[dir := directory];
    assert tables[..4] == tables;
    assert forall g, j {:trigger EntryAt(store, g, j)} :: g != dir ==> EntryAt(store, g, j) == EntryAt(built, g, j);
    forall i: nat
      ensures HasTable(store, dir, i) <==> 768 <= i < 772
      ensures 768 <= i < 772 ==> TableOf(store, dir, i) == tables[i - 768]
    {
    }
    forall i | 768 <= i < 772 ensures IsTable(store, TableOf(store, dir, i)) {
      assert IsTable(built, tables[i - 768]);
    }
    forall p: nat | p < PAGES ensures Translate(store, dir, p) == Lookup(BootFlat(), p) {
      BootTranslate(store, built, dir, tables, p);
    }
  }

  lemma BootTranslate(store: Store, built: Store, dir: nat, tables: seq<nat>, p: nat)
    requires |tables| == 4 && p < PAGES
    requires forall g, j {:trigger EntryAt(store, g, j)} :: g != dir ==> EntryAt(store, g, j) == EntryAt(built, g, j)
    requires HasTable(store, dir, p / 1024) <==> 768 <= p / 1024 < 772
    requires 768 <= p / 1024 < 772 ==> TableOf(store, dir, p / 1024) == tables[p / 1024 - 768] != dir
    requires 768 <= p / 1024 < 772 ==>
               EntryAt(built, tables[p / 1024 - 768], p % 1024) == Entry(true, (p / 1024 - 768) * 1024 + p % 1024, 1)
    ensures Translate(store, dir, p) == Lookup(BootFlat(), p)
  {
  }

  lemma CreateWritten(store: Store, dir: nat, made: nat, entries: seq<Entry>)
    requires WellFormed(store, dir) && |entries| == 1024
    requires forall k :: 0 <= k < 1024 ==> entries[k] == if 768 <= k < 1024 then store[dir][k] else Entry(false, 0, 1)
    ensures store[made := entries] == CreateIn(store, dir, made)
  {
    assert CreateIn(store, dir, made)[made] == entries;
  }

  /** A new directory is one more table; slots and translations of the kernel directory are as they were. */
  lemma CreateTied(store: Store, dir: nat, m: Mem, made: nat)
    requires Tied(store, dir, m) && made !in store
    ensures Tied(CreateIn(store, dir, made), dir, m.(tables := m.tables + {made}))
  {
    CreateRefines(store, dir, made);
    var s := CreateIn(store, dir, made);
    forall i ensures HasTable(s, dir, i) == HasTable(store, dir, i) && TableOf(s, dir, i) == TableOf(store, dir, i) {
      assert EntryAt(s, dir, i) == EntryAt(store, dir, i);
    }
    forall p: nat ensures Translate(s, dir, p) == Translate(store, dir, p) {
    }
  }

  class KernelPaging {
    const pmm: FrameAllocator
    const dir: nat
    var store: Store
    ghost var slots: set<nat>
    ghost var flat: map<nat, nat>

    ghost function View(): Mem
      reads this, pmm, pmm.bitmap
    {
      Mem(pmm.View(), store.Keys, slots, flat)
    }

    ghost predicate Valid()
      reads this, pmm, pmm.bitmap
    {
      pmm.Valid() && Tied(store, dir, View()) && Sane(View())
    }

    /**
     `paging_init`: the directory and the four static tables lie in the kernel image, in frames `dir` and
     `tables`; they map the first 16 MB at 0xC0000000 and nothing else.
     */
    constructor (pmm: FrameAllocator, dir: nat, tables: seq<nat>)
      requires pmm.Valid() && |tables| == 4 && dir !in tables && dir !in pmm.View().clear
      requires forall f :: f in pmm.View().clear ==> 256 <= f < BITMAP_FRAMES
      requires forall t :: 0 <= t < 4 ==> 1 <= tables[t] < 1024 && tables[t] !in pmm.View().clear
      requires forall s, t :: 0 <= s < t < 4 ==> tables[s] != tables[t]
      ensures this.pmm == pmm && this.dir == dir && Valid()
      ensures flat == BootFlat()
    {
      this.pmm, this.dir, this.store := pmm, dir, map[];
      slots, flat := {768, 769, 770, 771}, BootFlat();
      new;
      var directory, built := StaticTables(tables);
      assert tables[..4] == tables;
      BuiltIsTied(pmm.View(), built, dir, directory, tables);
      store := built[dir := directory];
    }

    /** The loops of `paging_init`. */
    static method StaticTables(tables: seq<nat>) returns (directory: seq<Entry>, built: Store)
      requires |tables| == 4
      requires forall s, t :: 0 <= s < t < 4 ==> tables[s] != tables[t]
      ensures Built(directory, built, tables, 4)
    {
      directory := ClearedEntries(Entry(false, 0, 1));
      built := map[];
      for t := 0 to 4
        invariant Built(directory, built, tables, t)
      {
        var page := new Entry[1024](_ => Entry(false, 0, 0));
        for i := 0 to 1024
          invariant forall k :: 0 <= k < i ==> page[k] == Entry(true, t * 1024 + k, 1)
        {
          page[i] := Entry(true, t * 1024 + i, 1);
        }
        assert tables[..t + 1] == tables[..t] + [tables[t]];
        ghost var before := built;
        built := built[tables[t] := page[..]];
        forall s, k | 0 <= s <= t && 0 <= k < 1024
          ensures EntryAt(built, tables[s], k) == Entry(true, s * 1024 + k, 1)
        {
          assert s < t ==> EntryAt(built, tables[s], k) == EntryAt(before, tables[s], k);
        }
        directory := directory[768 + t := Entry(true, tables[t], 1)];
      }
    }

    /** A page of entries, cleared for a new table or directory. */
    static method ClearedEntries(e: Entry) returns (entries: seq<Entry>)
      ensures entries == seq(1024, _ => e)
    {
      var page := new Entry[1024](_ => Entry(true, 0, 0));
      for i := 0 to 1024
        invariant forall k :: 0 <= k < i ==> page[k] == e
      {
        page[i] := e;
      }
      entries := page[..];
    }

    /** The frame that a new table would go to, if there is one. */
    ghost function NewTable(): nat
      reads this, pmm, pmm.bitmap
      requires pmm.Valid()
    {
      match NextFrame(pmm.View())
      case None => 0
      case Some(t) => t
    }

    /** One entry of the table behind `page`, written through the direct map. */
    method SetEntry(page: nat, e: Entry)
      requires Valid() && page < PAGES && page / 1024 in slots
      modifies this`store, this`flat
      ensures View() == old(View()).(flat := if e.present then old(flat)[page := e.frame] else old(flat) - {page})
      ensures Tied(store, dir, View())
      ensures TableOf(store, dir, page / 1024) == old(TableOf(store, dir, page / 1024)) != dir
      ensures forall g, k {:trigger EntryAt(store, g, k)} ::
                EntryAt(store, g, k) ==
                if g == TableOf(store, dir, page / 1024) && k == page % 1024 then e else old(EntryAt(store, g, k))
      ensures old(IsTable(store, TableOf(store, dir, page / 1024)))
      ensures store == old(Write(store, TableOf(store, dir, page / 1024), page % 1024, e))
    {
      ghost var m := View();
      EntryWritten(store, dir, m, page, e);
      TablesReached(store, dir, m, page / 1024);
      var table := store[dir][page / 1024].frame;
      var hit := Reached(store, dir, table).value;
      store := store[hit := store[hit][page % 1024 := e]];
      flat := if e.present then flat[page := e.frame] else flat - {page};
    }

    /** The first half of `paging_map_page`: a table for directory slot `i`. */
    method EnsureTable(i: nat, flags: nat) returns (o: Outcome)
      requires Valid() && i < 1024
      modifies this`store, this`slots, pmm`usedFrames, pmm.bitmap
      ensures pmm.Valid() && flat == old(flat)
      ensures o == (if i in old(slots) then Mapped else
                    match old(NextFrame(pmm.View())) case None => NoTable case Some(t) => if t < 1024 then Mapped else HighTable)
      ensures o == Mapped ==> Valid()
      ensures pmm.View() == if i in old(slots) then old(pmm.View()) else old(Step(pmm.View(), Alloc))
      ensures if o == Mapped && i !in old(slots)
              then slots == old(slots) + {i} && store.Keys == old(store.Keys) + {old(NextFrame(pmm.View())).value}
              else slots == old(slots) && store == old(store)
      ensures o == Mapped ==>
                (forall g, k {:trigger EntryAt(store, g, k)} ::
                   EntryAt(store, g, k) ==
                   if g == dir && k == i && i !in old(slots) then DirectoryEntry(old(NextFrame(pmm.View())).value, flags)
                   else old(EntryAt(store, g, k)))
      ensures o == Mapped ==> old(HasTable(store, dir, i) || NewTable() !in store)
      ensures o == Mapped ==> store == old(WithTable(store, dir, i, flags, NewTable()))
    {
      ghost var m := View();
      assert HasTable(store, dir, i) <==> i in slots;
      if store[dir][i].present {
        return Mapped;
      }
      var newTablePhys := pmm.Alloc();
      if newTablePhys == 0 {
        return NoTable;
      }
      var t := newTablePhys / 4096;
      if t >= 1024 {
        return HighTable;
      }
      WindowReached(store, dir, m, t);
      TableAdded(store, dir, m, i, flags, t);
      var cleared := ClearedEntries(Entry(false, 0, 0));
      store := store[Reached(store, dir, t).value := cleared];
      store := store[dir := store[dir][i := DirectoryEntry(t, flags)]];
      assert store == WithTable(old(store), dir, i, flags, t);
      slots := slots + {i};
      return Mapped;
    }

    /** `paging_map_page`. */
    method MapPage(virtualAddr: nat, physicalAddr: nat, flags: nat) returns (o: Outcome)
      requires Valid() && virtualAddr < TWO32 && !InWindow(virtualAddr / 4096)
      modifies this`store, this`slots, this`flat, pmm`usedFrames, pmm.bitmap
      ensures (View(), o) == old(MapStep(View(), virtualAddr / 4096, physicalAddr / 4096))
      ensures o != HighTable ==> Valid()
      ensures o == Mapped ==>
                (forall g, k {:trigger EntryAt(store, g, k)} ::
                   EntryAt(store, g, k) ==
                   if g == TableOf(store, dir, virtualAddr / 4096 / 1024) && k == virtualAddr / 4096 % 1024
                   then TableEntry(physicalAddr / 4096, flags)
                   else if g == dir && k == virtualAddr / 4096 / 1024 && k !in old(slots)
                   then DirectoryEntry(old(NextFrame(pmm.View())).value, flags)
                   else old(EntryAt(store, g, k)))
      ensures o == Mapped ==> old(HasTable(store, dir, virtualAddr / 4096 / 1024) || NewTable() !in store)
      ensures o == Mapped ==>
                store == old(MapIn(store, dir, virtualAddr / 4096 / 1024, virtualAddr / 4096 % 1024, physicalAddr / 4096, flags, NewTable()))
    {
      var page := virtualAddr / 4096;
      MapStepSane(View(), page, physicalAddr / 4096);
      o := EnsureTable(page / 1024, flags);
      if o == Mapped {
        SetEntry(page, TableEntry(physicalAddr / 4096, flags));
      }
    }

    /** `paging_unmap_page`. */
    method UnmapPage(virtualAddr: nat)
      requires Valid() && virtualAddr < TWO32 && !InWindow(virtualAddr / 4096)
      modifies this`store, this`flat
      ensures View() == old(UnmapStep(View(), virtualAddr / 4096)) && Valid()
      ensures forall g, k {:trigger EntryAt(store, g, k)} ::
                EntryAt(store, g, k) ==
                if HasTable(store, dir, virtualAddr / 4096 / 1024)
                   && g == TableOf(store, dir, virtualAddr / 4096 / 1024) && k == virtualAddr / 4096 % 1024
                then Entry(false, 0, 0)
                else old(EntryAt(store, g, k))
      ensures store == old(UnmapIn(store, dir, virtualAddr / 4096 / 1024, virtualAddr / 4096 % 1024))
    {
      var page := virtualAddr / 4096;
      UnmapStepSane(View(), page);
      assert HasTable(store, dir, page / 1024) <==> page / 1024 in slots;
      if store[dir][page / 1024].present {
        SetEntry(page, Entry(false, 0, 0));
      } else {
        assert Translate(store, dir, page) == None;
      }
    }

    /** `paging_get_physical`: 0 stands for "not mapped". */
    method GetPhysical(virtualAddr: nat) returns (phys: nat)
      requires Valid() && virtualAddr < TWO32
      ensures phys == match Lookup(flat, virtualAddr / 4096)
                      case None => 0
                      case Some(frame) => frame * 4096 + virtualAddr % 4096
    {
      var page := virtualAddr / 4096;
      assert Translate(store, dir, page) == Lookup(flat, page);
      if !store[dir][page / 1024].present {
        return 0;
      }
      TablesReached(store, dir, View(), page / 1024);
      var table := store[dir][page / 1024].frame;
      var hit := Reached(store, dir, table).value;
      if !store[hit][page % 1024].present {
        return 0;
      }
      return store[hit][page % 1024].frame * 4096 + virtualAddr % 4096;
    }

    /** `paging_create_directory`: a physical address, 0 standing for NULL. */
    method CreateDirectory() returns (dirPhys: nat, o: Outcome)
      requires Valid()
      modifies this`store, pmm`usedFrames, pmm.bitmap
      ensures pmm.Valid() && pmm.View() == old(Step(pmm.View(), Alloc))
      ensures o != HighTable ==> Valid()
      ensures match old(NextFrame(pmm.View()))
              case None => dirPhys == 0 && o == NoTable && store == old(store)
              case Some(made) =>
                && dirPhys == made * 4096
                && o == (if made < 1024 then Mapped else HighTable)
                && store == (if o == Mapped then CreateIn(old(store), dir, made) else old(store))
    {
      ghost var m := View();
      dirPhys := pmm.Alloc();
      if dirPhys == 0 {
        return 0, NoTable;
      }
      var made := dirPhys / 4096;
      if made >= 1024 {
        return dirPhys, HighTable;
      }
      WindowReached(store, dir, m, made);
      var hit := Reached(store, dir, made).value;
      var entries := ClearedEntries(Entry(false, 0, 1));
      for i := 768 to 1024
        invariant |entries| == 1024
        invariant forall k :: 0 <= k < 1024 ==> entries[k] == if 768 <= k < i then store[dir][k] else Entry(false, 0, 1)
      {
        entries := entries[i := store[dir][i]];
      }
      CreateWritten(store, dir, made, entries);
      CreateTied(store, dir, m, made);
      store := store[hit := entries];
      return dirPhys, Mapped;
    }
  }
}
