/** `vmm_find_free_region` (kernel/vmm.c): when the range it returns is free, and runs that only place regions. */
module FreeRegions {
  import opened Words
  import opened Regions

  const DEFAULT_HINT := 0xD000_0000
  const TOP := 0xFFFF_F000

  /** The candidate after region `r` has been looked at. */
  function Advance(r: Region, c: nat): nat {
    if r.base <= c < Wrap(r.End()) then PageAlign(Wrap(r.End())) else c
  }

  /** The end of the gap after the first region of `rs`. */
  function GapEnd(rs: seq<Region>): nat {
    if |rs| > 1 then rs[1].base else TOP
  }

  predicate Fits(rs: seq<Region>, c: nat, size: nat)
    requires rs != []
  {
    Wrap(Advance(rs[0], c) + size) <= GapEnd(rs)
  }

  /** The walk from candidate `c`; 0 when nothing was found. */
  function Search(rs: seq<Region>, c: nat, size: nat): nat {
    if rs == [] then 0
    else if Fits(rs, c, size) then Advance(rs[0], c)
    else Search(rs[1..], Advance(rs[0], c), size)
  }

  /** Some region that the walk visits starts above the candidate it is compared with. */
  predicate Stalled(rs: seq<Region>, c: nat, size: nat) {
    rs != [] && (rs[0].base > c || (!Fits(rs, c, size) && Stalled(rs[1..], Advance(rs[0], c), size)))
  }

  ghost predicate Solid(rs: seq<Region>) {
    ListInv(rs) && forall i :: 0 <= i < |rs| ==> rs[i].size > 0
  }

  ghost predicate Free(rs: seq<Region>, c: nat, size: nat) {
    forall i :: 0 <= i < |rs| ==> Region(c, size, 0, 0).Apart(rs[i])
  }

  lemma SolidRest(rs: seq<Region>)
    requires Solid(rs) && rs != []
    ensures Solid(rs[1..]) && rs[0].Good() && rs[0].size > 0
    ensures forall i :: 1 <= i < |rs| ==> rs[0].End() <= rs[i].base && rs[i] == rs[1..][i - 1]
  {
    assert rs[0] in rs;
    assert forall i :: 0 <= i < |rs[1..]| ==> rs[1..][i] == rs[i + 1];
    forall i | 1 <= i < |rs| ensures rs[0].End() <= rs[i].base {
      assert rs[0].Apart(rs[i]) && rs[0].base <= rs[i].base && rs[i].size > 0;
    }
    forall r | r in rs[1..] ensures r.Good() {
      assert r in rs;
    }
  }

  lemma AdvancePast(r: Region, c: nat)
    requires r.Good() && r.size > 0
    ensures Advance(r, c) == if r.base <= c < r.End() then r.End() else c
  {
  }

  lemma {:induction false} SearchGrows(rs: seq<Region>, c: nat, size: nat)
    requires Solid(rs)
    ensures Search(rs, c, size) == 0 || Search(rs, c, size) >= c
    ensures rs != [] && rs[0].base > c ==> Search(rs, c, size) in {0, c}
  {
    if rs != [] {
      SolidRest(rs);
      AdvancePast(rs[0], c);
      SearchGrows(rs[1..], Advance(rs[0], c), size);
    }
  }

  /** Past the first region of the list, the range found is free exactly when the walk never stalls. */
  lemma {:induction false} SearchExact(rs: seq<Region>, c: nat, size: nat)
    requires Solid(rs) && rs != [] && size > 0
    requires rs[0].base > c ==> c + size > rs[0].base
    requires Search(rs, c, size) != 0 && Search(rs, c, size) + size < TWO32
    ensures Free(rs, Search(rs, c, size), size) <==> !Stalled(rs, c, size)
  {
    var found := Search(rs, c, size);
    SolidRest(rs);
    AdvancePast(rs[0], c);
    SearchGrows(rs, c, size);
    if rs[0].base > c {
      assert !Region(c, size, 0, 0).Apart(rs[0]);
    } else if Fits(rs, c, size) {
      forall i | 0 <= i < |rs| ensures Region(found, size, 0, 0).Apart(rs[i]) {
        assert i > 1 ==> rs[1].base <= rs[i].base;
      }
    } else {
      SearchGrows(rs[1..], Advance(rs[0], c), size);
      SearchExact(rs[1..], Advance(rs[0], c), size);
      if Free(rs[1..], found, size) {
        forall i | 0 <= i < |rs| ensures Region(found, size, 0, 0).Apart(rs[i]) {
          assert i > 0 ==> rs[i] == rs[1..][i - 1];
        }
      } else {
        var i :| 0 <= i < |rs[1..]| && !Region(found, size, 0, 0).Apart(rs[1..][i]);
        assert rs[1..][i] == rs[i + 1];
      }
    }
  }

  /** The range found is free exactly when it fits below the first region or the walk never stalls. */
  lemma FoundIsFree(rs: seq<Region>, hint: nat, size: nat)
    requires Solid(rs) && rs != [] && size > 0
    requires Search(rs, hint, size) != 0 && Search(rs, hint, size) + size < TWO32
    ensures Free(rs, Search(rs, hint, size), size) <==> hint + size <= rs[0].base || !Stalled(rs, hint, size)
  {
    SearchGrows(rs, hint, size);
    if hint + size <= rs[0].base {
      forall i | 0 <= i < |rs| ensures Region(hint, size, 0, 0).Apart(rs[i]) {
        assert rs[0].base <= rs[i].base;
      }
    } else {
      SearchExact(rs, hint, size);
    }
  }

  /** The search answers whenever the request would end in time after the hint and after every region. */
  lemma {:induction false} SearchAnswers(rs: seq<Region>, hint: nat, size: nat)
    requires Solid(rs) && rs != [] && size > 0 && 0 < hint && hint + size <= TOP
    requires forall i :: 0 <= i < |rs| ==> rs[i].End() + size <= TOP
    ensures Search(rs, hint, size) != 0
  {
    SolidRest(rs);
    AdvancePast(rs[0], hint);
    var c := Advance(rs[0], hint);
    assert Wrap(c + size) == c + size;
    if !Fits(rs, hint, size) {
      forall i | 0 <= i < |rs[1..]| ensures rs[1..][i].End() + size <= TOP {
        assert rs[1..][i] == rs[i + 1];
      }
      SearchAnswers(rs[1..], c, size);
    }
  }

  /** The answer is the hint or the end of a region: the walk tries no other address. */
  lemma {:induction false} SearchCandidates(rs: seq<Region>, hint: nat, size: nat)
    requires Solid(rs) && Search(rs, hint, size) != 0
    ensures Search(rs, hint, size) == hint || exists i :: 0 <= i < |rs| && Search(rs, hint, size) == rs[i].End()
  {
    SolidRest(rs);
    AdvancePast(rs[0], hint);
    var c := Advance(rs[0], hint);
    if !Fits(rs, hint, size) {
      SearchCandidates(rs[1..], c, size);
      if i :| 0 <= i < |rs[1..]| && Search(rs[1..], c, size) == rs[1..][i].End() {
        assert rs[1..][i] == rs[i + 1];
      }
    }
  }

  /** Two pages mapped one page apart above the boot regions, kind `REGION_USER_CODE`. */
  function Gapped(kend: nat): seq<Region>
    requires 0xC010_0000 < kend <= 0xC040_0000
  {
    BootRegions(kend) + [Region(0xD000_0000, 0x1000, 3, 6), Region(0xD000_2000, 0x1000, 3, 6)]
  }

  /** A gap that is too small for the request makes the search answer with a range that overlaps. */
  lemma SmallGapOverlaps(kend: nat)
    requires 0xC010_0000 < kend <= 0xC040_0000 && kend % 4096 == 0
    ensures Solid(Gapped(kend)) && Search(Gapped(kend), DEFAULT_HINT, 0x2000) == 0xD000_1000
    ensures !Free(Gapped(kend), 0xD000_1000, 0x2000)
  {
    var bs, t := BootRegions(kend), [Region(0xD000_0000, 0x1000, 3, 6), Region(0xD000_2000, 0x1000, 3, 6)];
    BootInv(kend);
    BootBelowHint(kend);
    SolidAppend(bs, t, DEFAULT_HINT);
    SkipBoot(bs, t, DEFAULT_HINT, 0x2000);
    assert Advance(t[0], DEFAULT_HINT) == 0xD000_1000 && !Fits(t, DEFAULT_HINT, 0x2000);
    assert Advance(t[1], 0xD000_1000) == 0xD000_1000 && Fits(t[1..], 0xD000_1000, 0x2000);
    assert Gapped(kend)[|bs| + 1] == t[1] && !Region(0xD000_1000, 0x2000, 0, 0).Apart(t[1]);
  }

  /** Regions wholly below the candidate are passed over when the request does not wrap. */
  lemma {:induction false} SkipBoot(bs: seq<Region>, t: seq<Region>, base: nat, size: nat)
    requires forall i :: 0 <= i < |bs| ==> bs[i].Good() && bs[i].size > 0 && bs[i].End() <= base
    requires t != [] && t[0].base <= base && 0 < size && base + size < TWO32
    ensures Search(bs + t, base, size) == Search(t, base, size)
  {
    var rs := bs + t;
    if bs == [] {
      assert rs == t;
    } else {
      AdvancePast(bs[0], base);
      assert rs[0] == bs[0] && rs[1..] == bs[1..] + t && rs[1].base <= base;
      SkipBoot(bs[1..], t, base, size);
    }
  }

  /** Regions stacked without gaps from address `base`. */
  ghost predicate Stack(t: seq<Region>, base: nat) {
    t == [] || (t[0].base == base && t[0].size > 0 && t[0].Good() && Stack(t[1..], t[0].End()))
  }

  function StackTop(t: seq<Region>, base: nat): nat {
    if t == [] then base else StackTop(t[1..], t[0].End())
  }

  /** A search that starts at the foot of a stack ends on its top and never stalls. */
  lemma {:induction false} SearchStack(t: seq<Region>, base: nat, size: nat)
    requires Stack(t, base) && t != [] && size > 0
    requires Search(t, base, size) != 0 && Search(t, base, size) + size < TWO32
    ensures Search(t, base, size) == StackTop(t, base) && !Stalled(t, base, size)
  {
    AdvancePast(t[0], base);
    if |t| > 1 {
      assert GapEnd(t) == t[0].End() && !Fits(t, base, size);
      SearchStack(t[1..], t[0].End(), size);
    }
  }

  /**
   From the foot of a stack, the search answers with the top when the range fits there below `TOP`; with nothing when it
   ends between that and 4 GB; and, its sum wrapping, with a range that passes 4 GB otherwise.
   */
  predicate AnswersFrom(found: nat, top: nat, size: nat) {
    if top + size < TWO32 then found == (if top + size <= TOP then top else 0) else found != 0 && found + size >= TWO32
  }

  lemma {:induction false} StackAnswers(t: seq<Region>, base: nat, size: nat)
    requires Stack(t, base) && t != [] && 0 < size < TWO32
    ensures AnswersFrom(Search(t, base, size), StackTop(t, base), size)
  {
    AdvancePast(t[0], base);
    var end := t[0].End();
    assert Wrap(end + size) == if end + size < TWO32 then end + size else end + size - TWO32;
    if |t| > 1 {
      StackSolid(t[1..], end);
      assert GapEnd(t) == end && (Fits(t, base, size) <==> end + size >= TWO32);
      if end + size < TWO32 {
        StackAnswers(t[1..], end, size);
      }
    } else {
      assert t[1..] == [] && StackTop(t, base) == end <= TOP;
    }
  }

  /** A region wholly below the candidate: the sum decides, against where the next region starts. */
  lemma PassBelow(rs: seq<Region>, base: nat, size: nat)
    requires rs != [] && rs[0].Good() && rs[0].size > 0 && rs[0].End() <= base && 0 < size < TWO32 && base < TWO32
    ensures Fits(rs, base, size) <==>
            (if base + size < TWO32 then base + size else base + size - TWO32) <= GapEnd(rs)
    ensures Search(rs, base, size) == if Fits(rs, base, size) then base else Search(rs[1..], base, size)
  {
    AdvancePast(rs[0], base);
    assert Wrap(base + size) == if base + size < TWO32 then base + size else base + size - TWO32;
  }

  lemma {:induction false} StackRises(t: seq<Region>, base: nat)
    requires Stack(t, base)
    ensures StackTop(t, base) >= base
  {
    if t != [] {
      StackRises(t[1..], t[0].End());
    }
  }

  lemma {:induction false} AnswersAboveBoot(bs: seq<Region>, t: seq<Region>, base: nat, size: nat)
    requires forall i :: 0 <= i < |bs| ==> bs[i].Good() && bs[i].size > 0 && bs[i].End() <= base
    requires Stack(t, base) && bs + t != [] && 0 < size < TWO32 && 0 < base <= TOP
    ensures AnswersFrom(Search(bs + t, base, size), StackTop(t, base), size)
  {
    var rs := bs + t;
    StackRises(t, base);
    if bs == [] {
      assert rs == t;
      StackAnswers(t, base, size);
    } else {
      assert rs[0] == bs[0] && rs[1..] == bs[1..] + t;
      PassBelow(rs, base, size);
      if rs[1..] != [] {
        assert rs[1].base <= base;
        if !Fits(rs, base, size) {
          AnswersAboveBoot(bs[1..], t, base, size);
        }
      }
    }
  }

  /** Regions wholly below the hint do not change that. */
  lemma {:induction false} SearchAboveBoot(bs: seq<Region>, t: seq<Region>, base: nat, size: nat)
    requires forall i :: 0 <= i < |bs| ==> bs[i].Good() && bs[i].size > 0 && bs[i].End() <= base
    requires Stack(t, base) && bs + t != [] && size > 0
    requires Search(bs + t, base, size) != 0 && Search(bs + t, base, size) + size < TWO32
    ensures Search(bs + t, base, size) == StackTop(t, base) && !Stalled(bs + t, base, size)
  {
    var rs := bs + t;
    if bs == [] {
      assert rs == t;
      SearchStack(t, base, size);
    } else {
      AdvancePast(bs[0], base);
      assert rs[0] == bs[0] && rs[1..] == bs[1..] + t;
      if !Fits(rs, base, size) {
        SearchAboveBoot(bs[1..], t, base, size);
      } else if |rs| > 1 {
        assert rs[1].base <= base;
      }
    }
  }

  lemma {:induction false} StackSolid(t: seq<Region>, base: nat)
    requires Stack(t, base)
    ensures StackTop(t, base) >= base
    ensures forall i :: 0 <= i < |t| ==> t[i].Good() && t[i].size > 0 && base <= t[i].base && t[i].End() <= StackTop(t, base)
    ensures Sorted(t) && Disjoint(t)
  {
    if t != [] {
      StackSolid(t[1..], t[0].End());
      assert forall i :: 1 <= i < |t| ==> t[i] == t[1..][i - 1];
    }
  }

  lemma {:induction false} StackPush(t: seq<Region>, base: nat, r: Region)
    requires Stack(t, base) && r.base == StackTop(t, base) && r.size > 0 && r.Good()
    ensures Stack(t + [r], base) && StackTop(t + [r], base) == r.End()
  {
    if t != [] {
      assert (t + [r])[1..] == t[1..] + [r];
      StackPush(t[1..], t[0].End(), r);
    } else {
      assert (t + [r])[1..] == [];
    }
  }

  /** One region placed: search from the default hint, then map there; it may fail and change nothing. */
  datatype Placement = Placement(size: nat, flags: nat, kind: nat, mapped: bool)

  predicate Request(p: Placement) {
    p.size > 0 && p.size % 4096 == 0
  }

  function Place(rs: seq<Region>, p: Placement): seq<Region> {
    var c := Search(rs, DEFAULT_HINT, p.size);
    if c == 0 || c + p.size >= TWO32 || !p.mapped then rs else Insert(rs, Region(c, p.size, p.flags, p.kind))
  }

  function PlaceAll(rs: seq<Region>, ps: seq<Placement>): seq<Region> {
    if ps == [] then rs else Place(PlaceAll(rs, ps[..|ps| - 1]), ps[|ps| - 1])
  }

  /** The boot regions with a stack of others from the default hint up. */
  ghost predicate Stacked(rs: seq<Region>, kend: nat) {
    && 0xC010_0000 < kend <= 0xC040_0000 && kend % 4096 == 0
    && BootRegions(kend) <= rs && Stack(rs[|BootRegions(kend)|..], DEFAULT_HINT)
  }

  lemma BootBelowHint(kend: nat)
    requires 0xC010_0000 < kend <= 0xC040_0000 && kend % 4096 == 0
    ensures var bs := BootRegions(kend);
            forall i :: 0 <= i < |bs| ==> bs[i].Good() && bs[i].size > 0 && bs[i].End() <= DEFAULT_HINT
  {
  }

  lemma StackedSolid(rs: seq<Region>, kend: nat)
    requires Stacked(rs, kend)
    ensures Solid(rs)
  {
    var bs := BootRegions(kend);
    var t := rs[|bs|..];
    assert rs == bs + t;
    BootInv(kend);
    BootBelowHint(kend);
    StackSolid(t, DEFAULT_HINT);
    SolidAppend(bs, t, DEFAULT_HINT);
  }

  lemma SolidAppend(a: seq<Region>, b: seq<Region>, mid: nat)
    requires Sorted(a) && Disjoint(a) && Sorted(b) && Disjoint(b)
    requires forall i :: 0 <= i < |a| ==> a[i].Good() && a[i].size > 0 && a[i].End() <= mid
    requires forall i :: 0 <= i < |b| ==> b[i].Good() && b[i].size > 0 && mid <= b[i].base
    ensures Solid(a + b)
  {
    var rs := a + b;
    forall i, j | 0 <= i < j < |rs| ensures rs[i].base <= rs[j].base && rs[i].Apart(rs[j]) {
      if j < |a| {
        assert rs[i] == a[i] && rs[j] == a[j];
      } else if i < |a| {
        assert rs[i] == a[i] && rs[j] == b[j - |a|];
      } else {
        assert rs[i] == b[i - |a|] && rs[j] == b[j - |a|];
      }
    }
  }

  /** On boot regions plus a stack the search answers with the top of the stack, which is free. */
  lemma PlaceOnTop(rs: seq<Region>, kend: nat, size: nat)
    requires Stacked(rs, kend) && size > 0
    requires Search(rs, DEFAULT_HINT, size) != 0 && Search(rs, DEFAULT_HINT, size) + size < TWO32
    ensures Search(rs, DEFAULT_HINT, size) == StackTop(rs[|BootRegions(kend)|..], DEFAULT_HINT)
    ensures Free(rs, Search(rs, DEFAULT_HINT, size), size)
  {
    var bs := BootRegions(kend);
    var t := rs[|bs|..];
    assert rs == bs + t;
    BootBelowHint(kend);
    SearchAboveBoot(bs, t, DEFAULT_HINT, size);
    StackedSolid(rs, kend);
    FoundIsFree(rs, DEFAULT_HINT, size);
  }

  /** Every region of a stack starts below its top. */
  lemma StackedBelow(rs: seq<Region>, kend: nat, t: seq<Region>, i: nat)
    requires Stacked(rs, kend) && t == rs[|BootRegions(kend)|..] && i < |rs|
    ensures rs[i].base < StackTop(t, DEFAULT_HINT)
  {
    StackSolid(t, DEFAULT_HINT);
    if i < |BootRegions(kend)| {
      BootBelowHint(kend);
      assert rs[i] == BootRegions(kend)[i];
    } else {
      assert rs[i] == t[i - |BootRegions(kend)|];
    }
  }

  lemma PlaceKeeps(rs: seq<Region>, kend: nat, p: Placement)
    requires Stacked(rs, kend) && Request(p)
    ensures Stacked(Place(rs, p), kend)
  {
    if Place(rs, p) != rs {
      var bs := BootRegions(kend);
      var t, r := rs[|bs|..], Region(Search(rs, DEFAULT_HINT, p.size), p.size, p.flags, p.kind);
      PlaceOnTop(rs, kend, p.size);
      StackAligned(t, DEFAULT_HINT);
      forall i | 0 <= i < |rs| ensures rs[i].base < r.base {
        StackedBelow(rs, kend, t, i);
      }
      InsertLast(rs, r);
      StackPush(t, DEFAULT_HINT, r);
      assert (rs + [r])[|bs|..] == t + [r];
    }
  }

  lemma {:induction false} StackAligned(t: seq<Region>, base: nat)
    requires Stack(t, base) && base % 4096 == 0
    ensures StackTop(t, base) % 4096 == 0
  {
    if t != [] {
      StackAligned(t[1..], t[0].End());
    }
  }

  lemma {:induction false} PlacedStays(kend: nat, ps: seq<Placement>)
    requires 0xC010_0000 < kend <= 0xC040_0000 && kend % 4096 == 0
    requires forall p :: p in ps ==> Request(p)
    ensures Stacked(PlaceAll(BootRegions(kend), ps), kend)
  {
    if ps == [] {
      assert BootRegions(kend)[|BootRegions(kend)|..] == [];
    } else {
      PlacedStays(kend, ps[..|ps| - 1]);
      PlaceKeeps(PlaceAll(BootRegions(kend), ps[..|ps| - 1]), kend, ps[|ps| - 1]);
    }
  }

  /** A range below 4 GB that meets no region. */
  ghost predicate Proper(rs: seq<Region>, c: nat, size: nat) {
    c + size < TWO32 && Free(rs, c, size)
  }

  /**
   In every run that only places regions at the default hint, a search answers with a free range below 4 GB, or with
   none, if and only if the request put on top of the regions placed would end below 4 GB.
   */
  lemma PlacedRangesAreFree(kend: nat, ps: seq<Placement>, size: nat)
    requires 0xC010_0000 < kend <= 0xC040_0000 && kend % 4096 == 0 && 0 < size < TWO32
    requires forall p :: p in ps ==> Request(p)
    ensures Stacked(PlaceAll(BootRegions(kend), ps), kend)
    ensures var rs := PlaceAll(BootRegions(kend), ps);
            var c := Search(rs, DEFAULT_HINT, size);
            var top := StackTop(rs[|BootRegions(kend)|..], DEFAULT_HINT);
            (c == 0 || Proper(rs, c, size) <==> top + size < TWO32) && (top + size <= TOP ==> c == top)
  {
    var bs, rs := BootRegions(kend), PlaceAll(BootRegions(kend), ps);
    PlacedStays(kend, ps);
    var t, c := rs[|bs|..], Search(rs, DEFAULT_HINT, size);
    assert rs == bs + t;
    BootBelowHint(kend);
    AnswersAboveBoot(bs, t, DEFAULT_HINT, size);
    StackFits(rs, kend, t, size);
    if c != 0 && c + size < TWO32 {
      PlaceOnTop(rs, kend, size);
    }
  }

  /** A request that fits on top of the stack is answered. */
  lemma StackFits(rs: seq<Region>, kend: nat, t: seq<Region>, size: nat)
    requires Stacked(rs, kend) && t == rs[|BootRegions(kend)|..] && size > 0
    ensures StackTop(t, DEFAULT_HINT) + size <= TOP ==> Search(rs, DEFAULT_HINT, size) != 0
  {
    StackRises(t, DEFAULT_HINT);
    if StackTop(t, DEFAULT_HINT) + size <= TOP {
      StackedSolid(rs, kend);
      forall i | 0 <= i < |rs| ensures rs[i].End() + size <= TOP {
        EndsBelow(rs, kend, t, i);
      }
      SearchAnswers(rs, DEFAULT_HINT, size);
    }
  }

  lemma EndsBelow(rs: seq<Region>, kend: nat, t: seq<Region>, i: nat)
    requires Stacked(rs, kend) && t == rs[|BootRegions(kend)|..] && i < |rs|
    ensures rs[i].End() <= StackTop(t, DEFAULT_HINT)
  {
    StackSolid(t, DEFAULT_HINT);
    if i < |BootRegions(kend)| {
      BootBelowHint(kend);
      assert rs[i] == BootRegions(kend)[i];
    } else {
      assert rs[i] == t[i - |BootRegions(kend)|];
    }
  }

  /** After boot, a request for 768 MB is answered with the hint, from where it reaches the very end of memory. */
  lemma WholeTopWraps(kend: nat)
    requires 0xC010_0000 < kend <= 0xC040_0000 && kend % 4096 == 0
    ensures Search(BootRegions(kend), DEFAULT_HINT, 0x3000_0000) + 0x3000_0000 >= TWO32
  {
    var bs := BootRegions(kend);
    BootBelowHint(kend);
    assert bs + [] == bs;
    AnswersAboveBoot(bs, [], DEFAULT_HINT, 0x3000_0000);
  }

  /** The walk has come to position `k`, whose slot is `slot`, with the candidate `c`. */
  ghost predicate SearchAt(pool: seq<Node>, slot: int, order: seq<nat>, k: nat, rs: seq<Region>, hint: nat, c: nat, size: nat) {
    && k <= |order| == |rs| && Chain(pool, slot, order[k..]) && Contents(pool, order[k..]) == rs[k..]
    && Search(rs, hint, size) == Search(rs[k..], c, size)
  }

  /** One round of the walk: the candidate past the region fits before the next one, or the walk goes on. */
  lemma SearchOn(pool: seq<Node>, slot: int, order: seq<nat>, k: nat, rs: seq<Region>, hint: nat, c: nat, size: nat)
    requires SearchAt(pool, slot, order, k, rs, hint, c, size) && slot != -1
    ensures k < |rs| && 0 <= slot < |pool| && (pool[slot].next == -1 || 0 <= pool[slot].next < |pool|)
    ensures var next, after := Advance(pool[slot].region, c), pool[slot].next;
            if Wrap(next + size) <= (if after != -1 then pool[after].region.base else TOP) then Search(rs, hint, size) == next
            else SearchAt(pool, after, order, k + 1, rs, hint, next, size)
  {
    assert rs[k..][0] == pool[slot].region && rs[k..][1..] == rs[k + 1..] && order[k..][1..] == order[k + 1..];
    assert Chain(pool, pool[slot].next, order[k + 1..]) && Contents(pool, order[k + 1..]) == rs[k + 1..];
    if k + 1 < |rs| {
      assert rs[k + 1..][0] == RegionAt(pool, order[k + 1..][0]);
    }
  }

  /** `vmm_find_free_region`. */
  method FindFreeRegion(list: RegionList, requested: nat, startHint: nat) returns (found: nat)
    requires list.Valid()
    ensures found == Search(list.List(), PageAlign(if startHint == 0 then DEFAULT_HINT else startHint), PageAlign(requested))
  {
    var size := PageAlign(requested);
    var candidate := PageAlign(if startHint == 0 then DEFAULT_HINT else startHint);
    var slot := list.head;
    ghost var nodes, order, rs := list.pool[..], list.order, list.List();
    ghost var k, hint := 0, candidate;
    while slot != -1
      invariant SearchAt(nodes, slot, order, k, rs, hint, candidate, size)
      decreases |rs| - k
    {
      SearchOn(nodes, slot, order, k, rs, hint, candidate, size);
      var region := list.pool[slot].region;
      var regionEnd := Wrap(region.base + region.size);
      var next := list.pool[slot].next;
      if region.base <= candidate < regionEnd {
        candidate := PageAlign(regionEnd);
      }
      var limit := if next != -1 then list.pool[next].region.base else TOP;
      if Wrap(candidate + size) <= limit {
        return candidate;
      }
      slot, k := next, k + 1;
    }
    return 0;
  }
}
