/** The region lists of kernel/vmm.c: sorted by base, linked through a static pool that is never refilled. */
module Regions {
  import opened Words

  const VMM_MAX_REGIONS := 256

  const REGION_FREE := 0
  const REGION_KERNEL_CODE := 1
  const REGION_KERNEL_HEAP := 3
  const REGION_IDENTITY_MAP := 5
  const REGION_MMIO := 10

  const VMM_READ := 1
  const VMM_WRITE := 2
  const VMM_EXEC := 4

  datatype Region = Region(base: nat, size: nat, flags: nat, kind: nat) {
    function End(): nat {
      base + size
    }

    /** The test of `vmm_find_region`, in 32-bit arithmetic. */
    predicate Has(addr: nat) {
      base <= addr < Wrap(base + size)
    }

    /** Page aligned, and not reaching the top of the 32-bit address space. */
    predicate Good() {
      base % 4096 == 0 && size % 4096 == 0 && base + size < TWO32
    }

    /** No address is in both; an empty region has none. */
    predicate Apart(r: Region) {
      size == 0 || r.size == 0 || End() <= r.base || r.End() <= base
    }
  }

  /** Where `insert_region` puts a region past the head: before the first one whose base is not below `base`. */
  function SkipBelow(rs: seq<Region>, base: nat): (k: nat)
    ensures k <= |rs|
    ensures forall i :: 0 <= i < k ==> rs[i].base < base
    ensures k < |rs| ==> base <= rs[k].base
  {
    if rs == [] || rs[0].base >= base then 0 else 1 + SkipBelow(rs[1..], base)
  }

  /** Where `insert_region` puts a region: the head gives way only to a strictly lower base. */
  function InsertPos(rs: seq<Region>, base: nat): (k: nat)
    ensures k <= |rs|
  {
    if rs == [] || base < rs[0].base then 0 else 1 + SkipBelow(rs[1..], base)
  }

  /** `s` with `x` inserted at position `k`. */
  function InsertedAt<T>(s: seq<T>, k: nat, x: T): (r: seq<T>)
    requires k <= |s|
    ensures |r| == |s| + 1
  {
    if k == 0 then [x] + s else [s[0]] + InsertedAt(s[1..], k - 1, x)
  }

  /** `s` without position `k`. */
  function Without<T>(s: seq<T>, k: nat): (r: seq<T>)
    requires k < |s|
    ensures |r| == |s| - 1
  {
    if k == 0 then s[1..] else [s[0]] + Without(s[1..], k - 1)
  }

  lemma {:induction false} InsertedSlices<T>(s: seq<T>, k: nat, x: T)
    requires k <= |s|
    ensures InsertedAt(s, k, x) == s[..k] + [x] + s[k..]
  {
    if k > 0 {
      InsertedSlices(s[1..], k - 1, x);
      assert s[1..][k - 1..] == s[k..] && s[..k] == [s[0]] + s[1..][..k - 1];
    }
  }

  lemma {:induction false} WithoutSlices<T>(s: seq<T>, k: nat)
    requires k < |s|
    ensures Without(s, k) == s[..k] + s[k + 1..]
  {
    if k > 0 {
      WithoutSlices(s[1..], k - 1);
      assert s[1..][k..] == s[k + 1..] && s[..k] == [s[0]] + s[1..][..k - 1];
    }
  }

  lemma WithoutInserted<T>(s: seq<T>, k: nat, x: T)
    requires k <= |s|
    ensures Without(InsertedAt(s, k, x), k) == s && InsertedAt(s, k, x)[k] == x
  {
    if k > 0 {
      WithoutInserted(s[1..], k - 1, x);
      assert InsertedAt(s, k, x)[1..] == InsertedAt(s[1..], k - 1, x);
    }
  }

  function Insert(rs: seq<Region>, r: Region): seq<Region> {
    InsertedAt(rs, InsertPos(rs, r.base), r)
  }

  /** The first region that starts exactly at `base`, or the length. */
  function FirstAt(rs: seq<Region>, base: nat): (k: nat)
    ensures k <= |rs| && (k < |rs| ==> rs[k].base == base)
    ensures forall i :: 0 <= i < k ==> rs[i].base != base
  {
    if rs == [] || rs[0].base == base then 0 else 1 + FirstAt(rs[1..], base)
  }

  ghost predicate Sorted(rs: seq<Region>) {
    forall i, j :: 0 <= i < j < |rs| ==> rs[i].base <= rs[j].base
  }

  ghost predicate Disjoint(rs: seq<Region>) {
    forall i, j :: 0 <= i < j < |rs| ==> rs[i].Apart(rs[j])
  }

  ghost predicate ListInv(rs: seq<Region>) {
    Sorted(rs) && Disjoint(rs) && forall r :: r in rs ==> r.Good()
  }

  lemma InsertPosSorts(rs: seq<Region>, base: nat)
    requires Sorted(rs)
    ensures forall i :: 0 <= i < InsertPos(rs, base) ==> rs[i].base <= base
    ensures forall i :: InsertPos(rs, base) <= i < |rs| ==> base <= rs[i].base
  {
    if rs != [] && rs[0].base <= base {
      var rest := rs[1..];
      var k := SkipBelow(rest, base);
      assert forall i :: 1 <= i < |rs| ==> rs[i] == rest[i - 1];
    }
  }

  lemma InsertAt(rs: seq<Region>, r: Region, i: nat)
    requires i <= |rs|
    ensures var k := InsertPos(rs, r.base);
            |Insert(rs, r)| == |rs| + 1 && Insert(rs, r)[i] == if i < k then rs[i] else if i == k then r else rs[i - 1]
  {
    InsertedSlices(rs, InsertPos(rs, r.base), r);
  }

  lemma InsertSorted(rs: seq<Region>, r: Region)
    requires Sorted(rs)
    ensures Sorted(Insert(rs, r))
  {
    InsertPosSorts(rs, r.base);
    forall i, j | 0 <= i < j < |Insert(rs, r)| ensures Insert(rs, r)[i].base <= Insert(rs, r)[j].base {
      InsertAt(rs, r, i);
      InsertAt(rs, r, j);
    }
  }

  lemma InsertDisjoint(rs: seq<Region>, r: Region)
    requires Disjoint(rs) && forall e :: 0 <= e < |rs| ==> r.Apart(rs[e])
    ensures Disjoint(Insert(rs, r))
  {
    forall i, j | 0 <= i < j < |Insert(rs, r)| ensures Insert(rs, r)[i].Apart(Insert(rs, r)[j]) {
      InsertAt(rs, r, i);
      InsertAt(rs, r, j);
    }
  }

  lemma InsertedElements<T>(s: seq<T>, k: nat, x: T)
    requires k <= |s|
    ensures multiset(InsertedAt(s, k, x)) == multiset(s) + multiset{x}
  {
    if k > 0 {
      InsertedElements(s[1..], k - 1, x);
      assert s == [s[0]] + s[1..];
    }
  }

  /** Inserting a region apart from all others keeps the list sorted, disjoint and page aligned. */
  lemma InsertKeeps(rs: seq<Region>, r: Region)
    requires ListInv(rs) && r.Good()
    requires forall e :: 0 <= e < |rs| ==> r.Apart(rs[e])
    ensures ListInv(Insert(rs, r))
    ensures multiset(Insert(rs, r)) == multiset(rs) + multiset{r}
  {
    InsertSorted(rs, r);
    InsertDisjoint(rs, r);
    InsertedElements(rs, InsertPos(rs, r.base), r);
    forall e | e in Insert(rs, r) ensures e.Good() {
      assert e in multiset(Insert(rs, r));
    }
  }

  lemma WithoutAt<T>(s: seq<T>, k: nat, i: nat)
    requires k < |s| && i < |s| - 1
    ensures Without(s, k)[i] == if i < k then s[i] else s[i + 1]
  {
    WithoutSlices(s, k);
  }

  lemma WithoutMember<T>(s: seq<T>, k: nat, x: T)
    requires k < |s| && x in s && x != s[k]
    ensures x in Without(s, k)
  {
    var i :| 0 <= i < |s| && s[i] == x;
    WithoutAt(s, k, if i < k then i else i - 1);
  }

  /** Taking a region off the list keeps the rest in order. */
  lemma WithoutKeeps(rs: seq<Region>, k: nat)
    requires ListInv(rs) && k < |rs|
    ensures ListInv(Without(rs, k))
    ensures Without(rs, k) == rs[..k] + rs[k + 1..]
  {
    var o := Without(rs, k);
    WithoutSlices(rs, k);
    forall i, j | 0 <= i < j < |o| ensures o[i].base <= o[j].base && o[i].Apart(o[j]) {
      WithoutAt(rs, k, i);
      WithoutAt(rs, k, j);
    }
    forall e | e in o ensures e.Good() {
      assert e in rs;
    }
  }

  lemma SkipAll(rs: seq<Region>, base: nat)
    requires forall i :: 0 <= i < |rs| ==> rs[i].base < base
    ensures SkipBelow(rs, base) == |rs|
  {
  }

  /** A region above all others goes to the end. */
  lemma InsertLast(rs: seq<Region>, r: Region)
    requires forall i :: 0 <= i < |rs| ==> rs[i].base < r.base
    ensures Insert(rs, r) == rs + [r]
  {
    if rs != [] {
      SkipAll(rs[1..], r.base);
    }
    InsertedSlices(rs, |rs|, r);
  }

  /** Looking up a base right after inserting there finds the new region exactly when the head does not start there. */
  lemma InsertedIsFound(rs: seq<Region>, r: Region)
    requires Sorted(rs)
    ensures FirstAt(Insert(rs, r), r.base) == InsertPos(rs, r.base) <==> rs == [] || rs[0].base != r.base
    ensures Without(Insert(rs, r), InsertPos(rs, r.base)) == rs
  {
    var k := InsertPos(rs, r.base);
    var ins := Insert(rs, r);
    WithoutInserted(rs, k, r);
    InsertedSlices(rs, k, r);
    if rs != [] && rs[0].base == r.base {
      assert ins[0] == rs[0];
    } else {
      forall i | 0 <= i < k ensures ins[i].base != r.base {
        assert ins[i] == rs[i];
        if i > 0 {
          assert rs[i] == rs[1..][i - 1];
        }
      }
    }
  }

  /** `vmm_find_region`: the first region that holds the address, or the length. */
  function FindIn(rs: seq<Region>, addr: nat): (k: nat)
    ensures k <= |rs| && (k < |rs| ==> rs[k].Has(addr))
    ensures forall i :: 0 <= i < k ==> !rs[i].Has(addr)
  {
    if rs == [] || rs[0].Has(addr) then 0 else 1 + FindIn(rs[1..], addr)
  }

  /** At most one region of a disjoint list holds an address, so the one found is the one. */
  lemma FoundIsUnique(rs: seq<Region>, addr: nat, i: nat)
    requires Disjoint(rs) && i < |rs| && rs[i].Has(addr)
    ensures FindIn(rs, addr) == i
  {
  }

  /** An address is found exactly if it lies in some region, from its base up to its end, and then in the one found. */
  lemma FindIsExact(rs: seq<Region>, addr: nat)
    requires forall i :: 0 <= i < |rs| ==> rs[i].End() < TWO32
    ensures FindIn(rs, addr) < |rs| <==> exists i :: 0 <= i < |rs| && rs[i].base <= addr < rs[i].base + rs[i].size
    ensures FindIn(rs, addr) < |rs| ==> var r := rs[FindIn(rs, addr)]; r.base <= addr < r.base + r.size
  {
    forall i | 0 <= i < |rs| ensures rs[i].Has(addr) <==> rs[i].base <= addr < rs[i].base + rs[i].size {
      assert rs[i].End() < TWO32;
    }
  }

  /** The test `vmm_map_region` applies to an existing region, in 32-bit arithmetic. */
  predicate Clashes(e: Region, vaddr: nat, size: nat) {
    vaddr < Wrap(e.base + e.size) && Wrap(vaddr + size) > e.base
  }

  /** The overlap test is exact for a range that stays below 4 GB; past that, only where the wrapped end still tells. */
  lemma CheckIsExact(e: Region, r: Region)
    requires e.Good() && e.size > 0 && r.size > 0 && r.base < TWO32 && r.size < TWO32
    ensures (Clashes(e, r.base, r.size) <==> !r.Apart(e)) <==>
            r.End() < TWO32 || e.End() <= r.base || r.End() - TWO32 > e.base
  {
    assert Wrap(r.base + r.size) == if r.End() < TWO32 then r.End() else r.End() - TWO32;
  }

  /** A request for everything from 0xC0000000 up has an end of 0, and passes the check against the heap's region. */
  lemma WholeTopPasses()
    ensures var heap, all := Region(0xC040_0000, 0x100_0000, VMM_READ + VMM_WRITE, REGION_KERNEL_HEAP), Region(0xC000_0000, 0x4000_0000, 3, 6);
            heap.Good() && !Clashes(heap, all.base, all.size) && !all.Apart(heap)
  {
    assert Wrap(0x1_0000_0000) == 0;
  }

  lemma NoClashIsApart(e: Region, r: Region)
    requires e.Good() && r.base + r.size < TWO32 && !Clashes(e, r.base, r.size)
    ensures r.Apart(e)
  {
  }

  /** The regions `vmm_init` registers, for a kernel image that ends at `kend`. */
  function BootRegions(kend: nat): seq<Region>
    requires 0xC010_0000 < kend <= 0xC040_0000
  {
    [Region(0xC000_1000, 0xF_F000, VMM_READ + VMM_WRITE, REGION_MMIO),
     Region(0xC010_0000, kend - 0xC010_0000, VMM_READ + VMM_WRITE + VMM_EXEC, REGION_KERNEL_CODE)]
    + (if kend < 0xC040_0000 then [Region(kend, 0xC040_0000 - kend, VMM_READ + VMM_WRITE, REGION_IDENTITY_MAP)] else [])
    + [Region(0xC040_0000, 0x100_0000, VMM_READ + VMM_WRITE, REGION_KERNEL_HEAP)]
  }

  ghost predicate Guarded(rs: seq<Region>, kend: nat) {
    0xC010_0000 < kend <= 0xC040_0000 && kend % 4096 == 0 && forall b :: b in BootRegions(kend) ==> b in rs
  }

  /** The boot regions leave no gap from 0xC0001000 to 0xC1400000, so no other region reaches in there. */
  lemma OutsideBoot(rs: seq<Region>, kend: nat, r: Region)
    requires Guarded(rs, kend) && r.size > 0
    requires forall e :: e in BootRegions(kend) ==> r.Apart(e)
    ensures r.End() <= 0xC000_1000 || 0xC140_0000 <= r.base
  {
    var bs := BootRegions(kend);
    assert bs[0] in bs && bs[1] in bs && bs[2] in bs && bs[|bs| - 1] in bs;
  }

  lemma BootGuarded(kend: nat)
    requires 0xC010_0000 < kend <= 0xC040_0000 && kend % 4096 == 0
    ensures Guarded(BootRegions(kend), kend)
  {
  }

  lemma BootApart(kend: nat, i: nat, j: nat)
    requires 0xC010_0000 < kend <= 0xC040_0000 && i < j < |BootRegions(kend)|
    ensures BootRegions(kend)[i].End() <= BootRegions(kend)[j].base
  {
  }

  lemma BootInv(kend: nat)
    requires 0xC010_0000 < kend <= 0xC040_0000 && kend % 4096 == 0
    ensures ListInv(BootRegions(kend)) && Guarded(BootRegions(kend), kend)
  {
    BootGuarded(kend);
    var rs := BootRegions(kend);
    forall i, j | 0 <= i < j < |rs| ensures rs[i].base <= rs[j].base && rs[i].Apart(rs[j]) {
      BootApart(kend, i, j);
    }
    forall r | r in rs ensures r.Good() {
      BootGood(kend, r);
    }
  }

  lemma BootGood(kend: nat, r: Region)
    requires 0xC010_0000 < kend <= 0xC040_0000 && kend % 4096 == 0 && r in BootRegions(kend)
    ensures r.Good()
  {
  }

  /** A slot of `region_pool`: a region and the slot of the next one, -1 standing for NULL. */
  datatype Node = Node(region: Region, next: int)

  /** Following `next` from slot `head` visits exactly the slots of `order` and then ends. */
  ghost predicate Chain(pool: seq<Node>, head: int, order: seq<nat>)
    decreases order
  {
    if order == [] then head == -1
    else head == order[0] && order[0] < |pool| && Chain(pool, pool[order[0]].next, order[1..])
  }

  ghost predicate Distinct(order: seq<nat>) {
    order == [] || (order[0] !in order[1..] && Distinct(order[1..]))
  }

  function RegionAt(pool: seq<Node>, slot: nat): Region {
    if slot < |pool| then pool[slot].region else Region(0, 0, 0, REGION_FREE)
  }

  ghost function Contents(pool: seq<Node>, order: seq<nat>): (rs: seq<Region>)
    ensures |rs| == |order|
  {
    if order == [] then [] else [RegionAt(pool, order[0])] + Contents(pool, order[1..])
  }

  lemma {:induction false} ChainSame(pool: seq<Node>, pool': seq<Node>, head: int, order: seq<nat>)
    requires Chain(pool, head, order) && |pool| == |pool'|
    requires forall s :: s in order && s < |pool| ==> pool'[s] == pool[s]
    ensures Chain(pool', head, order) && Contents(pool', order) == Contents(pool, order)
    decreases order
  {
    if order != [] {
      ChainSame(pool, pool', pool[order[0]].next, order[1..]);
    }
  }

  lemma {:induction false} ChainAt(pool: seq<Node>, head: int, order: seq<nat>, k: nat)
    requires Chain(pool, head, order) && k < |order|
    ensures order[k] < |pool| && Contents(pool, order)[k] == pool[order[k]].region
    decreases order
  {
    if k > 0 {
      ChainAt(pool, pool[order[0]].next, order[1..], k - 1);
    }
  }

  /** The list after two pointer writes have linked `slot` in at position `k`. */
  lemma {:induction false} ChainInsert(pool: seq<Node>, pool': seq<Node>, head: int, order: seq<nat>, k: nat, slot: nat)
    requires Chain(pool, head, order) && Distinct(order) && |pool| == |pool'| && k <= |order|
    requires slot < |pool| && slot !in order
    requires pool'[slot].next == if k < |order| then order[k] else -1
    requires k > 0 && order[k - 1] < |pool| ==> pool'[order[k - 1]] == Node(pool[order[k - 1]].region, slot)
    requires forall s :: s in order && s < |pool| && (k == 0 || s != order[k - 1]) ==> pool'[s] == pool[s]
    ensures Chain(pool', if k == 0 then slot else head, InsertedAt(order, k, slot))
    ensures Contents(pool', InsertedAt(order, k, slot)) == InsertedAt(Contents(pool, order), k, pool'[slot].region)
    decreases order
  {
    var o := InsertedAt(order, k, slot);
    if k == 0 {
      ChainSame(pool, pool', head, order);
      assert o[1..] == order;
    } else {
      var rest := order[1..];
      assert o[1..] == InsertedAt(rest, k - 1, slot);
      assert order[k - 1] == (if k == 1 then order[0] else rest[k - 2]);
      if k == 1 {
        ChainSame(pool, pool', pool[order[0]].next, rest);
        assert o[1..][1..] == rest;
      } else {
        ChainInsert(pool, pool', pool[order[0]].next, rest, k - 1, slot);
      }
    }
  }

  lemma {:induction false} DistinctInsert(order: seq<nat>, k: nat, slot: nat)
    requires Distinct(order) && slot !in order && k <= |order|
    ensures Distinct(InsertedAt(order, k, slot))
    ensures forall s :: s in InsertedAt(order, k, slot) <==> s == slot || s in order
  {
    if k > 0 {
      DistinctInsert(order[1..], k - 1, slot);
      assert InsertedAt(order, k, slot)[1..] == InsertedAt(order[1..], k - 1, slot);
      assert order == [order[0]] + order[1..];
    } else {
      assert InsertedAt(order, 0, slot)[1..] == order;
    }
  }

  /** The list after one pointer write has unlinked the node at position `k`. */
  lemma {:induction false} ChainRemove(pool: seq<Node>, pool': seq<Node>, head: int, order: seq<nat>, k: nat)
    requires Chain(pool, head, order) && Distinct(order) && |pool| == |pool'| && k < |order|
    requires k > 0 && order[k - 1] < |pool| && order[k] < |pool| ==>
               pool'[order[k - 1]] == Node(pool[order[k - 1]].region, pool[order[k]].next)
    requires forall s :: s in order && s < |pool| && (k == 0 || s != order[k - 1]) ==> pool'[s] == pool[s]
    ensures Chain(pool', if k == 0 then pool[order[0]].next else head, Without(order, k))
    ensures Contents(pool', Without(order, k)) == Without(Contents(pool, order), k)
    decreases order
  {
    var rest := order[1..];
    if k == 0 {
      ChainSame(pool, pool', pool[order[0]].next, rest);
    } else {
      assert Without(order, k)[1..] == Without(rest, k - 1);
      assert order[k] == rest[k - 1] && order[k - 1] == (if k == 1 then order[0] else rest[k - 2]);
      if k == 1 {
        ChainSame(pool, pool', pool[order[1]].next, rest[1..]);
      } else {
        ChainRemove(pool, pool', pool[order[0]].next, rest, k - 1);
      }
    }
  }

  lemma {:induction false} DistinctRemove(order: seq<nat>, k: nat)
    requires Distinct(order) && k < |order|
    ensures Distinct(Without(order, k))
    ensures forall s :: s in Without(order, k) ==> s in order
  {
    if k > 0 {
      DistinctRemove(order[1..], k - 1);
      assert Without(order, k)[1..] == Without(order[1..], k - 1);
    }
  }

  /** The walk of `insert_region` has come to position `k`, with `next` ahead of it. */
  ghost predicate WalkAt(pool: seq<Node>, next: int, order: seq<nat>, k: nat, rs: seq<Region>, base: nat) {
    && k <= |order| == |rs| && Chain(pool, next, order[k..]) && Contents(pool, order[k..]) == rs[k..]
    && InsertPos(rs, base) == k + SkipBelow(rs[k..], base)
  }

  lemma WalkOn(pool: seq<Node>, next: int, order: seq<nat>, k: nat, rs: seq<Region>, base: nat)
    requires WalkAt(pool, next, order, k, rs, base) && 0 <= next < |pool| && pool[next].region.base < base
    ensures k < |order| && order[k] == next && WalkAt(pool, pool[next].next, order, k + 1, rs, base)
  {
    assert rs[k..][1..] == rs[k + 1..] && order[k..][1..] == order[k + 1..];
  }

  class RegionList {
    const pool: array<Node>
    var used: nat
    var head: int
    var count: nat
    ghost var order: seq<nat>

    ghost predicate Valid()
      reads this, pool
    {
      && pool.Length == VMM_MAX_REGIONS && used <= VMM_MAX_REGIONS && count == |order|
      && Chain(pool[..], head, order) && Distinct(order)
      && forall s :: s in order ==> s < used
    }

    ghost function List(): seq<Region>
      reads this, pool
    {
      Contents(pool[..], order)
    }

    constructor ()
      ensures Valid() && fresh(pool) && List() == [] && used == 0
    {
      pool := new Node[VMM_MAX_REGIONS](_ => Node(Region(0, 0, 0, REGION_FREE), -1));
      used, head, count, order := 0, -1, 0, [];
    }

    /** `alloc_region`: the next slot of the pool, or -1 when the pool is used up. */
    method AllocRegion() returns (slot: int)
      requires Valid()
      modifies this`used, pool
      ensures Valid() && List() == old(List())
      ensures if old(used) < VMM_MAX_REGIONS then slot == old(used) && used == slot + 1 && slot !in order
              else slot == -1 && used == old(used)
    {
      if used >= VMM_MAX_REGIONS {
        return -1;
      }
      slot, used := used, used + 1;
      ghost var nodes := pool[..];
      pool[slot] := Node(Region(0, 0, 0, REGION_FREE), -1);
      ChainSame(nodes, pool[..], head, order);
    }

    /** The walk of `insert_region`: the node after which a region with this base goes. */
    method FindPredecessor(base: nat) returns (curr: nat, ghost k: nat)
      requires Valid() && head != -1 && List()[0].base <= base
      ensures 0 < k <= |order| && k == InsertPos(List(), base)
      ensures curr == order[k - 1] < pool.Length && pool[curr].next == if k < |order| then order[k] else -1
    {
      ghost var nodes, rs := pool[..], List();
      curr, k := head, 1;
      while pool[curr].next != -1 && pool[pool[curr].next].region.base < base
        invariant 0 < k <= |order| && curr == order[k - 1] < pool.Length
        invariant WalkAt(nodes, pool[curr].next, order, k, rs, base)
        decreases |order| - k
      {
        WalkOn(nodes, pool[curr].next, order, k, rs, base);
        curr, k := pool[curr].next, k + 1;
      }
    }

    /** `insert_region`, with the region's fields already filled in. */
    method InsertRegion(slot: nat)
      requires Valid() && slot < used && slot !in order
      modifies this`head, this`count, this`order, pool
      ensures Valid() && List() == Insert(old(List()), old(pool[slot].region))
    {
      var region := pool[slot].region;
      ghost var nodes := pool[..];
      ghost var k := 0;
      if head == -1 || region.base < pool[head].region.base {
        pool[slot] := Node(region, head);
        ChainInsert(nodes, pool[..], head, order, 0, slot);
        head := slot;
      } else {
        var curr;
        curr, k := FindPredecessor(region.base);
        pool[slot] := Node(region, pool[curr].next);
        pool[curr] := Node(pool[curr].region, slot);
        ChainInsert(nodes, pool[..], head, order, k, slot);
      }
      DistinctInsert(order, k, slot);
      count := count + 1;
      order := InsertedAt(order, k, slot);
    }

    /** `remove_region`, for a region that is in the list. */
    method RemoveRegion(slot: nat, ghost k: nat)
      requires Valid() && k < |order| && order[k] == slot
      modifies this`head, this`count, this`order, pool
      ensures Valid() && List() == Without(old(List()), k)
    {
      ghost var nodes := pool[..];
      DistinctAt(order, k);
      if head == slot {
        ChainRemove(nodes, pool[..], head, order, 0);
        head := pool[slot].next;
      } else {
        var curr := head;
        ghost var i := 0;
        while pool[curr].next != -1 && pool[curr].next != slot
          invariant 0 <= i < k && curr == order[i] < pool.Length
          invariant Chain(pool[..], pool[curr].next, order[i + 1..])
          decreases |order| - i
        {
          assert order[i + 1..][1..] == order[i + 2..];
          curr, i := pool[curr].next, i + 1;
        }
        assert order[i + 1..][0] == order[i + 1];
        pool[curr] := Node(pool[curr].region, pool[slot].next);
        ChainRemove(nodes, pool[..], head, order, k);
      }
      DistinctRemove(order, k);
      count := count - 1;
      order := Without(order, k);
    }

    /** `register_existing_region`: a slot of the pool, or -1. */
    method RegisterExisting(base: nat, size: nat, flags: nat, kind: nat) returns (slot: int)
      requires Valid()
      modifies this, pool
      ensures Valid()
      ensures if old(used) < VMM_MAX_REGIONS
              then used == old(used) + 1 && slot == old(used) && List() == Insert(old(List()), Region(base, size, flags, kind))
              else used == old(used) && slot == -1 && List() == old(List())
    {
      slot := AllocRegion();
      if slot == -1 {
        return -1;
      }
      ghost var nodes := pool[..];
      pool[slot] := Node(Region(base, size, flags, kind), -1);
      ChainSame(nodes, pool[..], head, order);
      InsertRegion(slot);
    }

    /** One registration at boot, where each region lies above those before it. */
    method RegisterLast(r: Region)
      requires Valid() && used < VMM_MAX_REGIONS
      requires forall i :: 0 <= i < |List()| ==> List()[i].base < r.base
      modifies this, pool
      ensures Valid() && List() == old(List()) + [r] && used == old(used) + 1
    {
      InsertLast(List(), r);
      var slot := RegisterExisting(r.base, r.size, r.flags, r.kind);
    }

    /** The registrations of `vmm_init`. */
    method RegisterBoot(kend: nat)
      requires Valid() && List() == [] && used == 0 && 0xC010_0000 < kend <= 0xC040_0000
      modifies this, pool
      ensures Valid() && List() == BootRegions(kend) && used == |BootRegions(kend)|
    {
      RegisterLast(Region(0xC000_1000, 0xF_F000, VMM_READ + VMM_WRITE, REGION_MMIO));
      RegisterLast(Region(0xC010_0000, kend - 0xC010_0000, VMM_READ + VMM_WRITE + VMM_EXEC, REGION_KERNEL_CODE));
      if kend < 0xC040_0000 {
        RegisterLast(Region(kend, 0xC040_0000 - kend, VMM_READ + VMM_WRITE, REGION_IDENTITY_MAP));
      }
      RegisterLast(Region(0xC040_0000, 0x100_0000, VMM_READ + VMM_WRITE, REGION_KERNEL_HEAP));
    }

    /** `vmm_find_region`: a slot of the pool, or -1. */
    method FindRegion(addr: nat) returns (slot: int, ghost k: nat)
      requires Valid()
      ensures k == FindIn(List(), addr)
      ensures slot == if k < |List()| then order[k] else -1
    {
      slot, k := head, 0;
      ghost var rs := List();
      while slot != -1
        invariant 0 <= k <= |order|
        invariant Chain(pool[..], slot, order[k..]) && Contents(pool[..], order[k..]) == rs[k..]
        invariant FindIn(rs, addr) == k + FindIn(rs[k..], addr)
        decreases |order| - k
      {
        if pool[slot].region.Has(addr) {
          return;
        }
        assert rs[k..][1..] == rs[k + 1..] && order[k..][1..] == order[k + 1..];
        slot, k := pool[slot].next, k + 1;
      }
    }

    /** The search of `vmm_unmap_region` for a region that starts at `base`. */
    method FindAt(base: nat) returns (slot: int, ghost k: nat)
      requires Valid()
      ensures k == FirstAt(List(), base)
      ensures slot == if k < |List()| then order[k] else -1
    {
      slot, k := head, 0;
      ghost var rs := List();
      while slot != -1
        invariant 0 <= k <= |order|
        invariant Chain(pool[..], slot, order[k..]) && Contents(pool[..], order[k..]) == rs[k..]
        invariant FirstAt(rs, base) == k + FirstAt(rs[k..], base)
        decreases |order| - k
      {
        if pool[slot].region.base == base {
          return;
        }
        assert rs[k..][1..] == rs[k + 1..] && order[k..][1..] == order[k + 1..];
        slot, k := pool[slot].next, k + 1;
      }
    }

    /** The overlap check of `vmm_map_region`. */
    method Overlaps(vaddr: nat, size: nat) returns (overlap: bool)
      requires Valid()
      ensures overlap <==> exists i :: 0 <= i < |List()| && Clashes(List()[i], vaddr, size)
    {
      var slot := head;
      ghost var rs := List();
      ghost var k := 0;
      while slot != -1
        invariant 0 <= k <= |order|
        invariant Chain(pool[..], slot, order[k..]) && Contents(pool[..], order[k..]) == rs[k..]
        invariant forall i :: 0 <= i < k ==> !Clashes(rs[i], vaddr, size)
        decreases |order| - k
      {
        if Clashes(pool[slot].region, vaddr, size) {
          assert Clashes(rs[k], vaddr, size);
          return true;
        }
        assert rs[k..][1..] == rs[k + 1..] && order[k..][1..] == order[k + 1..];
        slot, k := pool[slot].next, k + 1;
      }
      return false;
    }
  }

  lemma DistinctAt(order: seq<nat>, k: nat)
    requires Distinct(order) && k < |order|
    ensures forall i :: 0 <= i < |order| && i != k ==> order[i] != order[k]
  {
    if k > 0 {
      DistinctAt(order[1..], k - 1);
      assert forall i :: 1 <= i < |order| ==> order[i] == order[1..][i - 1];
      assert order[1..][k - 1] in order[1..];
    } else {
      assert forall i :: 1 <= i < |order| ==> order[i] == order[1..][i - 1] && order[1..][i - 1] in order[1..];
    }
  }
}
