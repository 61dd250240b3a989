/**
 The two-level table of 32-bit paging (Intel SDM volume 3A, section 4.3) that kernel/paging.c keeps in
 physical frames, and what runs of its operations keep.
 */
module PageTables {
  import opened Words

  /** A directory or table entry: the present bit, a frame number, and flag bits 1 to 11. */
  datatype Entry = Entry(present: bool, frame: nat, flags: nat)

  /** The 32-bit word that holds an entry. */
  function Encode(e: Entry): nat {
    e.frame * 4096 + e.flags * 2 + if e.present then 1 else 0
  }

  function Decode(w: nat): Entry {
    Entry(w % 2 == 1, w / 4096, w % 4096 / 2)
  }

  lemma Split(frame: nat, low: nat)
    requires low < 4096
    ensures (4096 * frame + low) / 4096 == frame && (4096 * frame + low) % 4096 == low
  {
  }

  lemma Parity(half: nat, odd: bool)
    ensures (2 * half + if odd then 1 else 0) % 2 == 1 <==> odd
  {
  }

  lemma DecodeEncode(e: Entry)
    requires e.flags < 2048
    ensures Decode(Encode(e)) == e
  {
    var low := e.flags * 2 + if e.present then 1 else 0;
    assert Encode(e) == 4096 * e.frame + low == 2 * (2048 * e.frame + e.flags) + if e.present then 1 else 0;
    Split(e.frame, low);
    Parity(2048 * e.frame + e.flags, e.present);
  }

  /** `(physical_addr & 0xFFFFF000) | (flags & 0xFFF) | PAGE_PRESENT`. */
  function TableEntry(frame: nat, flags: nat): Entry {
    Entry(true, frame, flags % 4096 / 2)
  }

  /** `table | PAGE_PRESENT | PAGE_WRITE | (flags & PAGE_USER)`. */
  function DirectoryEntry(table: nat, flags: nat): Entry {
    Entry(true, table, 1 + 2 * (flags / 4 % 2))
  }

  /** The words these entries are written as. */
  lemma EntryWords(frame: nat, flags: nat)
    ensures Encode(TableEntry(frame, flags)) == 4096 * frame + flags % 4096 / 2 * 2 + 1
    ensures Encode(DirectoryEntry(frame, flags)) == 4096 * frame + 3 + 4 * (flags / 4 % 2)
    ensures Decode(Encode(TableEntry(frame, flags))) == TableEntry(frame, flags)
    ensures Decode(Encode(DirectoryEntry(frame, flags))) == DirectoryEntry(frame, flags)
  {
    DecodeEncode(TableEntry(frame, flags));
    DecodeEncode(DirectoryEntry(frame, flags));
  }

  /** The contents of the frames that hold page directories and page tables. */
  type Store = map<nat, seq<Entry>>

  /** Entry `i` of the table in frame `f`; a frame outside the store reads as not present. */
  function EntryAt(store: Store, f: nat, i: nat): Entry {
    if f in store && i < |store[f]| then store[f][i] else Entry(false, 0, 0)
  }

  /** The hardware walk from the directory in frame `dir`, through slot `i` and then slot `j`. */
  function Walk(store: Store, dir: nat, i: nat, j: nat): Option<nat> {
    var pde := EntryAt(store, dir, i);
    var pte := EntryAt(store, pde.frame, j);
    if pde.present && pte.present then Some(pte.frame) else None
  }

  predicate IsTable(store: Store, f: nat) {
    f in store && |store[f]| == 1024
  }

  predicate HasTable(store: Store, dir: nat, i: nat) {
    EntryAt(store, dir, i).present
  }

  function TableOf(store: Store, dir: nat, i: nat): nat {
    EntryAt(store, dir, i).frame
  }

  /** Present directory entries name distinct tables, none of them the directory itself. */
  ghost predicate WellFormed(store: Store, dir: nat) {
    && IsTable(store, dir)
    && (forall i {:trigger HasTable(store, dir, i)} ::
          HasTable(store, dir, i) ==> IsTable(store, TableOf(store, dir, i)) && TableOf(store, dir, i) != dir)
    && (forall i, j {:trigger HasTable(store, dir, i), HasTable(store, dir, j)} ::
          HasTable(store, dir, i) && HasTable(store, dir, j) && i != j ==> TableOf(store, dir, i) != TableOf(store, dir, j))
  }

  /** The write of one entry. */
  function Write(store: Store, f: nat, i: nat, e: Entry): (s: Store)
    requires IsTable(store, f) && i < 1024
    ensures s.Keys == store.Keys && forall g {:trigger IsTable(s, g)} :: IsTable(s, g) <==> IsTable(store, g)
    ensures forall g, j {:trigger EntryAt(s, g, j)} :: EntryAt(s, g, j) == if g == f && j == i then e else EntryAt(store, g, j)
  {
    store[f := store[f][i := e]]
  }

  /** An empty table in frame `f`. */
  function AddTable(store: Store, f: nat): (s: Store)
    requires f !in store
    ensures s.Keys == store.Keys + {f} && forall g {:trigger IsTable(s, g)} :: IsTable(s, g) <==> g == f || IsTable(store, g)
    ensures forall g, j {:trigger EntryAt(s, g, j)} :: EntryAt(s, g, j) == EntryAt(store, g, j)
  {
    store[f := seq(1024, _ => Entry(false, 0, 0))]
  }

  /** The page table of directory slot `i` is created, in frame `table`, when the slot is empty. */
  function WithTable(store: Store, dir: nat, i: nat, flags: nat, table: nat): Store
    requires WellFormed(store, dir) && i < 1024 && (HasTable(store, dir, i) || table !in store)
  {
    if HasTable(store, dir, i) then store
    else Write(AddTable(store, table), dir, i, DirectoryEntry(table, flags))
  }

  lemma WithTableKeeps(store: Store, dir: nat, i: nat, flags: nat, table: nat)
    requires WellFormed(store, dir) && i < 1024 && (HasTable(store, dir, i) || table !in store)
    ensures var s := WithTable(store, dir, i, flags, table);
            && WellFormed(s, dir) && HasTable(s, dir, i)
            && (forall k, j :: Walk(s, dir, k, j) == Walk(store, dir, k, j))
  {
    var s := WithTable(store, dir, i, flags, table);
    if !HasTable(store, dir, i) {
      forall k
        ensures HasTable(s, dir, k) <==> k == i || HasTable(store, dir, k)
        ensures TableOf(s, dir, k) == if k == i then table else TableOf(store, dir, k)
      {
      }
      forall k, j
        ensures Walk(s, dir, k, j) == Walk(store, dir, k, j)
      {
        assert HasTable(store, dir, k) ==> TableOf(store, dir, k) != dir;
      }
    }
  }

  /** Writing one entry of an existing table changes the translation of that page alone. */
  lemma WriteEntry(store: Store, dir: nat, i: nat, j: nat, e: Entry)
    requires WellFormed(store, dir) && HasTable(store, dir, i) && j < 1024
    ensures var s := Write(store, TableOf(store, dir, i), j, e);
            && WellFormed(s, dir)
            && (forall k :: EntryAt(s, dir, k) == EntryAt(store, dir, k))
            && (forall k, l :: Walk(s, dir, k, l) ==
                  if k == i && l == j then (if e.present then Some(e.frame) else None) else Walk(store, dir, k, l))
  {
    var t := TableOf(store, dir, i);
    var s := Write(store, t, j, e);
    forall k
      ensures EntryAt(s, dir, k) == EntryAt(store, dir, k)
      ensures HasTable(s, dir, k) <==> HasTable(store, dir, k)
    {
    }
    forall k, l
      ensures Walk(s, dir, k, l) ==
              if k == i && l == j then (if e.present then Some(e.frame) else None) else Walk(store, dir, k, l)
    {
      assert HasTable(store, dir, k) && k != i ==> TableOf(store, dir, k) != t;
    }
  }

  /** `paging_map_page`, the new table (if one is needed) going to frame `table`. */
  function MapIn(store: Store, dir: nat, i: nat, j: nat, frame: nat, flags: nat, table: nat): Store
    requires WellFormed(store, dir) && i < 1024 && j < 1024 && (HasTable(store, dir, i) || table !in store)
  {
    WithTableKeeps(store, dir, i, flags, table);
    var s := WithTable(store, dir, i, flags, table);
    Write(s, TableOf(s, dir, i), j, TableEntry(frame, flags))
  }

  /** `paging_unmap_page`: nothing happens when there is no table. */
  function UnmapIn(store: Store, dir: nat, i: nat, j: nat): Store
    requires WellFormed(store, dir) && i < 1024 && j < 1024
  {
    if !HasTable(store, dir, i) then store
    else Write(store, TableOf(store, dir, i), j, Entry(false, 0, 0))
  }

  /** `paging_create_directory`: empty below the kernel half, the kernel's own entries above. */
  function CreateIn(store: Store, dir: nat, made: nat): Store
    requires WellFormed(store, dir)
  {
    store[made := seq(1024, i requires 0 <= i < 1024 => if i < 768 then Entry(false, 0, 1) else store[dir][i])]
  }

  /** The two-level table refines a flat map: mapping a page updates its translation and no other. */
  lemma MapRefines(store: Store, dir: nat, i: nat, j: nat, frame: nat, flags: nat, table: nat)
    requires WellFormed(store, dir) && i < 1024 && j < 1024 && (HasTable(store, dir, i) || table !in store)
    ensures var s := MapIn(store, dir, i, j, frame, flags, table);
            && WellFormed(s, dir)
            && (forall k, l :: Walk(s, dir, k, l) == if k == i && l == j then Some(frame) else Walk(store, dir, k, l))
  {
    WithTableKeeps(store, dir, i, flags, table);
    WriteEntry(WithTable(store, dir, i, flags, table), dir, i, j, TableEntry(frame, flags));
  }

  /** The table entry of page `p`. */
  function PageEntry(store: Store, dir: nat, p: nat): Entry {
    EntryAt(store, TableOf(store, dir, p / 1024), p % 1024)
  }

  /** `s` is `store` with page `p` mapped with these flags, to some frame and with a new table if need be. */
  ghost predicate Sets(store: Store, s: Store, dir: nat, p: nat, flags: nat)
    requires WellFormed(store, dir) && p / 1024 < 1024
  {
    exists frame, table :: MapsTo(store, s, dir, p, flags, frame, table)
  }

  predicate MapsTo(store: Store, s: Store, dir: nat, p: nat, flags: nat, frame: nat, table: nat)
    requires WellFormed(store, dir) && p / 1024 < 1024
  {
    (HasTable(store, dir, p / 1024) || table !in store) && s == MapIn(store, dir, p / 1024, p % 1024, frame, flags, table)
  }

  /** Page `q` has a table, and its entry carries the flags. */
  predicate Marked(store: Store, dir: nat, q: nat, flags: nat) {
    HasTable(store, dir, q / 1024) && PageEntry(store, dir, q).present && PageEntry(store, dir, q).flags == flags % 4096 / 2
  }

  /** Mapping a page marks it, and leaves the marks of the others. */
  lemma SetsMarks(store: Store, s: Store, dir: nat, p: nat, flags: nat, q: nat)
    requires WellFormed(store, dir) && p / 1024 < 1024 && Sets(store, s, dir, p, flags)
    requires q == p || Marked(store, dir, q, flags)
    ensures Marked(s, dir, q, flags)
  {
    var frame, table :| MapsTo(store, s, dir, p, flags, frame, table);
    var i, made := p / 1024, WithTable(store, dir, p / 1024, flags, table);
    WithTableKeeps(store, dir, i, flags, table);
    WriteEntry(made, dir, i, p % 1024, TableEntry(frame, flags));
    assert HasTable(made, dir, q / 1024) && TableOf(s, dir, q / 1024) == TableOf(made, dir, q / 1024);
    if q / 1024 != i {
      assert HasTable(made, dir, i) && TableOf(made, dir, q / 1024) != TableOf(made, dir, i);
    }
    if q != p && !HasTable(store, dir, i) {
      assert TableOf(store, dir, q / 1024) != dir;
    }
  }

  /** Unmapping a page removes its translation and no other. */
  lemma UnmapRefines(store: Store, dir: nat, i: nat, j: nat)
    requires WellFormed(store, dir) && i < 1024 && j < 1024
    ensures var s := UnmapIn(store, dir, i, j);
            && WellFormed(s, dir)
            && (forall k, l :: Walk(s, dir, k, l) == if k == i && l == j then None else Walk(store, dir, k, l))
  {
    if HasTable(store, dir, i) {
      WriteEntry(store, dir, i, j, Entry(false, 0, 0));
    }
  }

  /** A new directory leaves the kernel's translations alone, copies those of its upper half and has no others. */
  lemma CreateRefines(store: Store, dir: nat, made: nat)
    requires WellFormed(store, dir) && made !in store
    ensures var s := CreateIn(store, dir, made);
            && WellFormed(s, dir)
            && (forall g, k :: g != made ==> EntryAt(s, g, k) == EntryAt(store, g, k))
            && (forall k, l :: Walk(s, dir, k, l) == Walk(store, dir, k, l))
            && (forall k, l :: Walk(s, made, k, l) == if k < 768 then None else Walk(store, dir, k, l))
  {
    var s := CreateIn(store, dir, made);
    assert forall g, k {:trigger EntryAt(s, g, k)} :: g != made ==> EntryAt(s, g, k) == EntryAt(store, g, k);
    assert forall k {:trigger HasTable(s, dir, k)} :: HasTable(s, dir, k) <==> HasTable(store, dir, k);
    forall k, l
      ensures Walk(s, dir, k, l) == Walk(store, dir, k, l)
      ensures Walk(s, made, k, l) == if k < 768 then None else Walk(store, dir, k, l)
    {
      assert HasTable(store, dir, k) ==> TableOf(store, dir, k) != made;
    }
  }

  /** The direct map that the kernel reaches page tables through: frames 1 to 1023 at 0xC0000000. */
  ghost predicate Window(store: Store, dir: nat) {
    forall t :: 1 <= t < 1024 ==> Walk(store, dir, 768, t) == Some(t)
  }

  /** The frame that a store through `PHYS_TO_VIRT(t * PAGE_SIZE)` really hits. */
  function Reached(store: Store, dir: nat, t: nat): Option<nat> {
    Walk(store, dir, (768 + t / 1024) % 1024, t % 1024)
  }

  /** Operations name a page by its directory slot `i` and table slot `j`. */
  datatype Op =
    | Map(i: nat, j: nat, frame: nat, flags: nat, table: nat)
    | Unmap(i: nat, j: nat)
    | Create(made: nat)

  /** Slots are 10-bit numbers; a frame that is about to hold a table or directory holds none yet. */
  predicate Legal(store: Store, dir: nat, op: Op) {
    match op
    case Map(i, j, _, _, table) => i < 1024 && j < 1024 && (HasTable(store, dir, i) || table !in store)
    case Unmap(i, j) => i < 1024 && j < 1024
    case Create(made) => made !in store
  }

  function Apply(store: Store, dir: nat, op: Op): Store
    requires WellFormed(store, dir) && Legal(store, dir, op)
  {
    match op
    case Map(i, j, frame, flags, table) => MapIn(store, dir, i, j, frame, flags, table)
    case Unmap(i, j) => UnmapIn(store, dir, i, j)
    case Create(made) => CreateIn(store, dir, made)
  }

  /** Frame `d` is neither the directory nor one of its tables. */
  ghost predicate Apart(store: Store, dir: nat, d: nat) {
    d in store && d != dir && forall k {:trigger HasTable(store, dir, k)} :: HasTable(store, dir, k) ==> TableOf(store, dir, k) != d
  }

  lemma ApartFromWrite(store: Store, dir: nat, i: nat, j: nat, e: Entry, d: nat)
    requires WellFormed(store, dir) && HasTable(store, dir, i) && j < 1024 && Apart(store, dir, d)
    ensures var s := Write(store, TableOf(store, dir, i), j, e);
            && WellFormed(s, dir) && Apart(s, dir, d)
            && (forall k :: EntryAt(s, dir, k) == EntryAt(store, dir, k))
            && (forall k :: EntryAt(s, d, k) == EntryAt(store, d, k))
  {
    WriteEntry(store, dir, i, j, e);
    var s := Write(store, TableOf(store, dir, i), j, e);
    forall k | HasTable(s, dir, k) ensures TableOf(s, dir, k) != d {
      assert HasTable(store, dir, k);
    }
  }

  /** Present directory entries stay, new ones name new frames, and frames apart from the directory are not touched. */
  lemma ApplyKeeps(store: Store, dir: nat, op: Op, d: nat)
    requires WellFormed(store, dir) && Legal(store, dir, op) && Apart(store, dir, d)
    ensures var s := Apply(store, dir, op);
            && WellFormed(s, dir) && Apart(s, dir, d)
            && (forall k :: HasTable(store, dir, k) ==> EntryAt(s, dir, k) == EntryAt(store, dir, k))
            && (forall k :: EntryAt(s, d, k) == EntryAt(store, d, k))
  {
    match op
    case Map(i, j, frame, flags, table) =>
      WithTableKeeps(store, dir, i, flags, table);
      var w := WithTable(store, dir, i, flags, table);
      forall k | HasTable(w, dir, k) ensures TableOf(w, dir, k) != d {
        assert HasTable(store, dir, k) || k == i;
      }
      ApartFromWrite(w, dir, i, j, TableEntry(frame, flags), d);
    case Unmap(i, j) =>
      if HasTable(store, dir, i) {
        ApartFromWrite(store, dir, i, j, Entry(false, 0, 0), d);
      }
    case Create(made) =>
      CreateRefines(store, dir, made);
      var s := CreateIn(store, dir, made);
      forall k | HasTable(s, dir, k) ensures TableOf(s, dir, k) != d {
        assert HasTable(store, dir, k);
      }
  }

  /** A run of paging operations on the kernel directory. */
  ghost predicate IsRun(dir: nat, states: seq<Store>, ops: seq<Op>) {
    && |states| == |ops| + 1
    && forall n :: 0 <= n < |ops| ==>
         && WellFormed(states[n], dir) && Legal(states[n], dir, ops[n])
         && states[n + 1] == Apply(states[n], dir, ops[n])
  }

  /** Directory `made` stands apart from the kernel directory, and its present entries are the kernel's. */
  ghost predicate Sharing(store: Store, dir: nat, made: nat) {
    && Apart(store, dir, made)
    && forall k {:trigger HasTable(store, made, k)} :: HasTable(store, made, k) ==> EntryAt(store, made, k) == EntryAt(store, dir, k)
  }

  lemma SharingKept(store: Store, dir: nat, made: nat, op: Op)
    requires WellFormed(store, dir) && Legal(store, dir, op) && Sharing(store, dir, made)
    ensures var s := Apply(store, dir, op);
            Sharing(s, dir, made) && forall k :: EntryAt(s, made, k) == EntryAt(store, made, k)
  {
    ApplyKeeps(store, dir, op, made);
    var s := Apply(store, dir, op);
    forall k | HasTable(s, made, k) ensures EntryAt(s, made, k) == EntryAt(s, dir, k) {
      assert EntryAt(s, made, k) == EntryAt(store, made, k);
      assert HasTable(store, made, k) && HasTable(store, dir, k);
    }
  }

  /**
   Once created, a directory and the kernel directory translate every kernel-half page whose directory
   entry was present at creation alike, after any number of further operations.
   */
  lemma {:induction false} SharedForever(dir: nat, states: seq<Store>, ops: seq<Op>, made: nat, i: nat, j: nat, n: nat)
    requires IsRun(dir, states, ops) && |ops| > 0 && ops[0] == Create(made)
    requires 768 <= i < 1024 && HasTable(states[0], dir, i)
    requires 1 <= n <= |ops|
    ensures Sharing(states[n], dir, made) && HasTable(states[n], made, i)
    ensures Walk(states[n], made, i, j) == Walk(states[n], dir, i, j)
  {
    if n == 1 {
      assert states[1] == CreateIn(states[0], dir, made);
      CreateRefines(states[0], dir, made);
      CreatedShares(states[0], dir, made);
    } else {
      SharedForever(dir, states, ops, made, i, j, n - 1);
      SharingKept(states[n - 1], dir, made, ops[n - 1]);
    }
  }

  lemma CreatedShares(store: Store, dir: nat, made: nat)
    requires WellFormed(store, dir) && made !in store
    ensures Sharing(CreateIn(store, dir, made), dir, made)
  {
    CreateRefines(store, dir, made);
    var s := CreateIn(store, dir, made);
    forall k | HasTable(s, dir, k) ensures TableOf(s, dir, k) != made {
      assert HasTable(store, dir, k);
    }
  }

  /** The operation leaves the direct-map window as it is. */
  predicate SparesWindow(op: Op) {
    match op
    case Map(i, j, frame, _, _) => i == 768 && 1 <= j ==> frame == j
    case Unmap(i, j) => !(i == 768 && 1 <= j)
    case Create(_) => true
  }

  lemma WindowUpdate(store: Store, s: Store, dir: nat, i: nat, j: nat, result: Option<nat>)
    requires Window(store, dir) && j < 1024
    requires forall k, l :: Walk(s, dir, k, l) == if k == i && l == j then result else Walk(store, dir, k, l)
    ensures Window(s, dir) <==> (i == 768 && 1 <= j ==> result == Some(j))
  {
    if i == 768 && 1 <= j {
      assert Walk(s, dir, 768, j) == result;
    }
  }

  lemma WindowAfter(store: Store, dir: nat, op: Op)
    requires WellFormed(store, dir) && Legal(store, dir, op) && Window(store, dir)
    ensures Window(Apply(store, dir, op), dir) <==> SparesWindow(op)
  {
    match op
    case Map(i, j, frame, flags, table) =>
      MapRefines(store, dir, i, j, frame, flags, table);
      WindowUpdate(store, Apply(store, dir, op), dir, i, j, Some(frame));
    case Unmap(i, j) =>
      UnmapRefines(store, dir, i, j);
      WindowUpdate(store, Apply(store, dir, op), dir, i, j, None);
    case Create(made) =>
      CreateRefines(store, dir, made);
  }

  /** Unmapping the first page of the boot region at 0xC0001000, which is not protected, breaks the window. */
  lemma WindowLost(store: Store, dir: nat)
    requires WellFormed(store, dir) && Window(store, dir)
    ensures !Window(Apply(store, dir, Unmap(768, 1)), dir)
  {
    WindowAfter(store, dir, Unmap(768, 1));
  }

  lemma {:induction false} WindowSpared(dir: nat, states: seq<Store>, ops: seq<Op>, n: nat)
    requires IsRun(dir, states, ops) && n <= |ops| && Window(states[0], dir)
    requires forall k :: 0 <= k < |ops| ==> SparesWindow(ops[k])
    ensures Window(states[n], dir)
  {
    if n > 0 {
      WindowSpared(dir, states, ops, n - 1);
      WindowAfter(states[n - 1], dir, ops[n - 1]);
    }
  }

  /**
   The window translates each of its addresses to that address minus 0xC0000000 throughout a run
   exactly when no operation of the run aims it elsewhere.
   */
  lemma WindowForever(dir: nat, states: seq<Store>, ops: seq<Op>)
    requires IsRun(dir, states, ops) && Window(states[0], dir)
    ensures (forall k :: 0 <= k < |states| ==> Window(states[k], dir)) <==> (forall k :: 0 <= k < |ops| ==> SparesWindow(ops[k]))
  {
    if forall k :: 0 <= k < |ops| ==> SparesWindow(ops[k]) {
      forall n | 0 <= n < |states| ensures Window(states[n], dir) {
        WindowSpared(dir, states, ops, n);
      }
    } else {
      var k :| 0 <= k < |ops| && !SparesWindow(ops[k]);
      if Window(states[k], dir) {
        WindowAfter(states[k], dir, ops[k]);
        assert !Window(states[k + 1], dir);
      }
    }
  }
}
