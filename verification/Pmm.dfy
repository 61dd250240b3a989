/** The frame bitmap of kernel/pmm.c: one bit per 4 KB frame, a set bit means "in use". */
module FrameBitmap {

  const MAX_FRAMES := 32786

  /** `MAX_FRAMES / 8` bytes: frames 32784 and 32785 have no byte of their own. */
  const BITMAP_BYTES := MAX_FRAMES / 8

  const BITMAP_FRAMES := 8 * BITMAP_BYTES

  /** `1 << j`. */
  function Mask(j: nat): bv8
    requires j < 8
  {
    if j == 0 then 1 else Mask(j - 1) << 1
  }

  /** The eight masks, written out. */
  lemma MaskValue(j: nat)
    requires j < 8
    ensures Mask(j) ==
            if j == 0 then 0x01 else if j == 1 then 0x02 else if j == 2 then 0x04 else if j == 3 then 0x08
            else if j == 4 then 0x10 else if j == 5 then 0x20 else if j == 6 then 0x40 else 0x80
  {
  }

  predicate ByteBit(b: bv8, j: nat)
    requires j < 8
  {
    b & Mask(j) != 0
  }

  function ByteSet(b: bv8, j: nat): bv8
    requires j < 8
  {
    b | Mask(j)
  }

  function ByteClear(b: bv8, j: nat): bv8
    requires j < 8
  {
    b & !Mask(j)
  }

  lemma ByteUpdates(b: bv8, j: nat, k: nat)
    requires j < 8 && k < 8
    ensures ByteBit(ByteSet(b, j), k) <==> j == k || ByteBit(b, k)
    ensures ByteBit(ByteClear(b, j), k) <==> j != k && ByteBit(b, k)
  {
    MaskValue(j);
    MaskValue(k);
  }

  /** The scan skips a byte exactly when all its eight frames are in use. */
  lemma FullByte(b: bv8)
    ensures b == 0xFF <==> forall j: nat :: j < 8 ==> ByteBit(b, j)
  {
    forall j: nat | j < 8
      ensures b == 0xFF ==> ByteBit(b, j)
    {
      MaskValue(j);
    }
    if forall j: nat :: j < 8 ==> ByteBit(b, j) {
      assert ByteBit(b, 0) && ByteBit(b, 1) && ByteBit(b, 2) && ByteBit(b, 3);
      assert ByteBit(b, 4) && ByteBit(b, 5) && ByteBit(b, 6) && ByteBit(b, 7);
    }
  }

  /** `bitmap_test`. */
  predicate Bit(bm: seq<bv8>, f: nat)
    requires f / 8 < |bm|
  {
    ByteBit(bm[f / 8], f % 8)
  }

  /** The frames below `n` whose bit is clear. */
  ghost function ClearBelow(bm: seq<bv8>, n: nat): set<nat>
    requires n <= 8 * |bm|
  {
    if n == 0 then {} else ClearBelow(bm, n - 1) + if Bit(bm, n - 1) then {} else {n - 1}
  }

  /** The abstract view of a bitmap: the set of frames whose bit is clear. */
  ghost function ClearFrames(bm: seq<bv8>): set<nat> {
    ClearBelow(bm, 8 * |bm|)
  }

  lemma ClearMember(bm: seq<bv8>, n: nat, f: nat)
    requires n <= 8 * |bm|
    ensures f in ClearBelow(bm, n) <==> f < n && !Bit(bm, f)
  {
  }

  lemma ClearFramesMembers(bm: seq<bv8>)
    ensures forall f: nat :: f in ClearFrames(bm) <==> f < 8 * |bm| && !Bit(bm, f)
  {
    forall f: nat ensures f in ClearFrames(bm) <==> f < 8 * |bm| && !Bit(bm, f) {
      ClearMember(bm, 8 * |bm|, f);
    }
  }

  /** `bitmap_set` takes exactly its frame out of the clear set. */
  lemma {:induction false} SetTakes(bm: seq<bv8>, f: nat, n: nat)
    requires f / 8 < |bm| && n <= 8 * |bm|
    ensures ClearBelow(bm[f / 8 := ByteSet(bm[f / 8], f % 8)], n) == ClearBelow(bm, n) - {f}
  {
    if n > 0 {
      SetTakes(bm, f, n - 1);
      ByteUpdates(bm[f / 8], f % 8, (n - 1) % 8);
      ClearMember(bm, n - 1, f);
    }
  }

  /** `bitmap_clear` adds exactly its frame to the clear set. */
  lemma {:induction false} ClearGives(bm: seq<bv8>, f: nat, n: nat)
    requires f / 8 < |bm| && n <= 8 * |bm|
    ensures ClearBelow(bm[f / 8 := ByteClear(bm[f / 8], f % 8)], n) == ClearBelow(bm, n) + if f < n then {f} else {}
  {
    if n > 0 {
      ClearGives(bm, f, n - 1);
      ByteUpdates(bm[f / 8], f % 8, (n - 1) % 8);
    }
  }
}

/** kernel/pmm.c: handing frames out, taking them back, and what every run of those calls keeps. */
module Pmm {
  import opened Words
  import opened FrameBitmap

  /** The allocator as a value: the clear frames and the two 32-bit counters. */
  datatype Frames = Frames(clear: set<nat>, total: nat, used: nat)

  /** The scan reads `total_frames / 8` bytes from frame 0, wherever the available frames are. */
  function Reach(total: nat): nat {
    8 * (total / 8)
  }

  /** The first clear frame at or after `from` and below `reach`. */
  function Lowest(clear: set<nat>, from: nat, reach: nat): (r: Option<nat>)
    ensures r.Some? ==> r.value in clear && from <= r.value < reach
    ensures r.Some? ==> forall g :: g in clear && from <= g ==> r.value <= g
    ensures r.None? ==> forall g :: g in clear && from <= g ==> reach <= g
    decreases reach - from
  {
    if from >= reach then None
    else if from in clear then Some(from)
    else Lowest(clear, from + 1, reach)
  }

  function NextFrame(s: Frames): (r: Option<nat>)
    ensures r.Some? ==> r.value in s.clear && r.value < Reach(s.total)
    ensures r.Some? ==> forall g :: g in s.clear ==> r.value <= g
    ensures r.None? ==> forall g :: g in s.clear ==> Reach(s.total) <= g
  {
    Lowest(s.clear, 0, Reach(s.total))
  }

  function Take(s: Frames, f: nat): Frames {
    Frames(s.clear - {f}, s.total, Wrap(s.used + 1))
  }

  function Give(s: Frames, f: nat): Frames {
    if f in s.clear then s else Frames(s.clear + {f}, s.total, Wrap(s.used - 1))
  }

  datatype Call = Alloc | Release(addr: nat)

  function Step(s: Frames, c: Call): Frames {
    match c
    case Alloc => var f := NextFrame(s); if f.Some? then Take(s, f.value) else s
    case Release(addr) => if addr / PAGE_SIZE >= MAX_FRAMES then s else Give(s, addr / PAGE_SIZE)
  }

  /** The state after all of `calls`, oldest first. */
  function Run(s: Frames, calls: seq<Call>): Frames {
    if calls == [] then s else Step(Run(s, calls[..|calls| - 1]), calls[|calls| - 1])
  }

  /** The two frames past the bitmap are never released: their bits lie outside `frame_bitmap`. */
  predicate InBitmap(c: Call) {
    c.Release? ==> c.addr / PAGE_SIZE < BITMAP_FRAMES || MAX_FRAMES <= c.addr / PAGE_SIZE
  }

  /** What `pmm_get_free_memory` reports, counted in frames, is the number of clear bits. */
  ghost predicate Conserved(s: Frames) {
    && (forall f :: f in s.clear ==> f < BITMAP_FRAMES)
    && |s.clear| == Wrap(s.total - s.used)
  }

  lemma BelowCount(n: nat, s: set<nat>)
    requires forall f :: f in s ==> f < n
    ensures |s| <= n
  {
    if n != 0 {
      BelowCount(n - 1, s - {n - 1});
    }
  }

  lemma CountsMove(total: nat, used: nat, n: nat, d: int)
    requires n == Wrap(total - used) && 0 <= n - d < TWO32
    ensures n - d == Wrap(total - Wrap(used + d))
  {
    WrapDifference(total, used + d);
    WrapSum(total - used, -d);
  }

  lemma StepConserves(s: Frames, c: Call)
    requires Conserved(s) && InBitmap(c)
    ensures Conserved(Step(s, c))
  {
    match c
    case Alloc =>
      if NextFrame(s).Some? {
        TakeConserves(s, NextFrame(s).value);
      }
    case Release(addr) =>
      if addr / PAGE_SIZE < MAX_FRAMES && addr / PAGE_SIZE !in s.clear {
        GiveConserves(s, addr / PAGE_SIZE);
      }
  }

  lemma TakeConserves(s: Frames, f: nat)
    requires Conserved(s) && f in s.clear
    ensures Conserved(Take(s, f))
  {
    BelowCount(BITMAP_FRAMES, s.clear);
    assert |s.clear - {f}| == |s.clear| - 1;
    CountsMove(s.total, s.used, |s.clear|, 1);
  }

  lemma GiveConserves(s: Frames, f: nat)
    requires Conserved(s) && f !in s.clear && f < BITMAP_FRAMES
    ensures Conserved(Give(s, f))
  {
    BelowCount(BITMAP_FRAMES, s.clear);
    assert |s.clear + {f}| == |s.clear| + 1;
    CountsMove(s.total, s.used, |s.clear|, -1);
  }

  /** In every run, disciplined or not, the clear bits equal `total_frames - used_frames`. */
  lemma {:induction false} RunConserves(s: Frames, calls: seq<Call>)
    requires Conserved(s) && forall c :: c in calls ==> InBitmap(c)
    ensures Conserved(Run(s, calls))
  {
    if calls != [] {
      RunConserves(s, calls[..|calls| - 1]);
      StepConserves(Run(s, calls[..|calls| - 1]), calls[|calls| - 1]);
    }
  }

  /** The frames handed out by `calls` and not released since. */
  function Live(s: Frames, calls: seq<Call>): set<nat> {
    if calls == [] then {} else
    var before := calls[..|calls| - 1];
    match calls[|calls| - 1]
    case Alloc =>
      var f := NextFrame(Run(s, before));
      if f.Some? then Live(s, before) + {f.value} else Live(s, before)
    case Release(addr) => Live(s, before) - {addr / PAGE_SIZE}
  }

  /** Only frames that are out are released. */
  predicate Disciplined(s: Frames, calls: seq<Call>) {
    calls == [] ||
    var before := calls[..|calls| - 1];
    var c := calls[|calls| - 1];
    && Disciplined(s, before)
    && (c.Release? ==> c.addr / PAGE_SIZE in Live(s, before))
  }

  /** In a disciplined run every frame is clear, live or reserved since the start, and never two of these. */
  lemma {:induction false} DisciplinedRun(s: Frames, calls: seq<Call>)
    requires Disciplined(s, calls)
    requires forall f :: f in s.clear ==> f < BITMAP_FRAMES
    ensures Live(s, calls) <= s.clear
    ensures Run(s, calls).clear == s.clear - Live(s, calls)
  {
    if calls != [] {
      DisciplinedRun(s, calls[..|calls| - 1]);
    }
  }

  /** No frame reserved at the start of a disciplined run is ever handed out. */
  lemma ReservedNeverReturned(s: Frames, calls: seq<Call>)
    requires Disciplined(s, calls)
    requires forall f :: f in s.clear ==> f < BITMAP_FRAMES
    ensures NextFrame(Run(s, calls)).Some? ==>
              NextFrame(Run(s, calls)).value in s.clear - Live(s, calls)
  {
    DisciplinedRun(s, calls);
  }

  predicate Releases(calls: seq<Call>, f: nat) {
    exists i :: 0 <= i < |calls| && calls[i].Release? && calls[i].addr / PAGE_SIZE == f
  }

  lemma {:induction false} UnreleasedStaysSet(s: Frames, calls: seq<Call>, f: nat)
    requires f !in s.clear && !Releases(calls, f)
    ensures f !in Run(s, calls).clear
  {
    if calls != [] {
      var before := calls[..|calls| - 1];
      assert forall k :: 0 <= k < |before| ==> before[k] == calls[k];
      UnreleasedStaysSet(s, before, f);
    }
  }

  /** Whatever else is called, a reserved frame stays out of the allocator exactly when no call releases it. */
  lemma ReservedUntilReleased(s: Frames, calls: seq<Call>, f: nat)
    requires f !in s.clear && f < BITMAP_FRAMES && forall c :: c in calls ==> InBitmap(c)
    ensures (forall k :: 0 <= k <= |calls| ==> f !in Run(s, calls[..k]).clear) <==> !Releases(calls, f)
  {
    if Releases(calls, f) {
      var i :| 0 <= i < |calls| && calls[i].Release? && calls[i].addr / PAGE_SIZE == f;
      assert calls[..i + 1][..i] == calls[..i];
      assert f in Run(s, calls[..i + 1]).clear;
    } else {
      forall k | 0 <= k <= |calls|
        ensures f !in Run(s, calls[..k]).clear
      {
        UnreleasedStaysSet(s, calls[..k], f);
      }
    }
  }

  /** Releasing reserved frame 0 makes the next allocation answer NULL although frames are clear. */
  lemma FrameZeroReadsAsNull(s: Frames)
    requires 0 !in s.clear && s.total >= 8
    ensures NextFrame(Step(s, Release(0))) == Some(0)
  {
  }

  lemma {:induction false} PastReachStays(s: Frames, calls: seq<Call>, f: nat)
    requires f in s.clear && Reach(s.total) <= f
    ensures Run(s, calls).total == s.total
    ensures f in Run(s, calls).clear && NextFrame(Run(s, calls)) != Some(f)
  {
    if calls != [] {
      PastReachStays(s, calls[..|calls| - 1], f);
    }
  }

  lemma {:induction false} RunFront(s: Frames, c: Call, calls: seq<Call>)
    ensures Run(s, [c] + calls) == Run(Step(s, c), calls)
  {
    var all := [c] + calls;
    if calls == [] {
      assert all[..|all| - 1] == [];
    } else {
      assert all[..|all| - 1] == [c] + calls[..|calls| - 1];
      RunFront(s, c, calls[..|calls| - 1]);
    }
  }

  ghost predicate HandsOut(s: Frames, calls: seq<Call>, f: nat) {
    (forall c :: c in calls ==> InBitmap(c)) && NextFrame(Run(s, calls)) == Some(f)
  }

  /** Some run hands out frame `f` next. */
  ghost predicate Reachable(s: Frames, f: nat) {
    exists calls :: HandsOut(s, calls, f)
  }

  /** Allocating until the clear frames below `f` are gone. */
  lemma {:induction false} AllocateUpTo(s: Frames, f: nat)
    requires f in s.clear && f < Reach(s.total)
    ensures Reachable(s, f)
    decreases |s.clear|
  {
    if NextFrame(s) == Some(f) {
      assert HandsOut(s, [], f);
    } else {
      AllocateUpTo(Step(s, Alloc), f);
      var rest :| HandsOut(Step(s, Alloc), rest, f);
      RunFront(s, Alloc, rest);
      assert HandsOut(s, [Alloc] + rest, f);
    }
  }

  /** A clear frame is handed out by some run if and only if it lies within the scan's reach. */
  lemma HandedOutWithinReach(s: Frames, f: nat)
    requires f in s.clear
    ensures Reachable(s, f) <==> f < Reach(s.total)
  {
    if f < Reach(s.total) {
      AllocateUpTo(s, f);
    } else if Reachable(s, f) {
      var calls :| HandsOut(s, calls, f);
      PastReachStays(s, calls, f);
    }
  }

  class FrameAllocator {
    const bitmap: array<bv8>
    var totalFrames: nat
    var usedFrames: nat

    ghost predicate Valid()
      reads this
    {
      && bitmap.Length == BITMAP_BYTES
      && totalFrames / 8 <= BITMAP_BYTES
      && usedFrames < TWO32
    }

    ghost function View(): Frames
      reads this, bitmap
    {
      Frames(ClearFrames(bitmap[..]), totalFrames, usedFrames)
    }

    constructor ()
      ensures Valid() && fresh(bitmap)
      ensures totalFrames == 0 && usedFrames == 0
    {
      bitmap := new bv8[BITMAP_BYTES];
      totalFrames, usedFrames := 0, 0;
    }

    /** `bitmap_set`. */
    method BitmapSet(frame: nat)
      requires frame / 8 < bitmap.Length
      modifies bitmap
      ensures ClearFrames(bitmap[..]) == old(ClearFrames(bitmap[..])) - {frame}
    {
      SetTakes(bitmap[..], frame, 8 * bitmap.Length);
      bitmap[frame / 8] := ByteSet(bitmap[frame / 8], frame % 8);
    }

    /** `bitmap_clear`. */
    method BitmapClear(frame: nat)
      requires frame / 8 < bitmap.Length
      modifies bitmap
      ensures ClearFrames(bitmap[..]) == old(ClearFrames(bitmap[..])) + {frame}
    {
      ClearGives(bitmap[..], frame, 8 * bitmap.Length);
      bitmap[frame / 8] := ByteClear(bitmap[frame / 8], frame % 8);
    }

    /** The first loop of `pmm_init`. */
    method MarkAllUsed()
      modifies bitmap
      ensures ClearFrames(bitmap[..]) == {}
    {
      for i := 0 to bitmap.Length
        invariant forall b :: 0 <= b < i ==> bitmap[b] == 0xFF
      {
        bitmap[i] := 0xFF;
      }
      FullByte(0xFF);
      ClearFramesMembers(bitmap[..]);
    }

    /** `bitmap_first_free`: the lowest clear frame in the scanned bytes, or -1. */
    method FirstFree() returns (frame: int)
      requires Valid()
      ensures frame == match NextFrame(View()) case None => -1 case Some(f) => f
    {
      ClearFramesMembers(bitmap[..]);
      for i := 0 to totalFrames / 8
        invariant forall g: nat :: g < 8 * i ==> Bit(bitmap[..], g)
      {
        if bitmap[i] != 0xFF {
          FullByte(bitmap[i]);
          for j := 0 to 8
            invariant forall k: nat :: k < j ==> ByteBit(bitmap[i], k)
          {
            if !ByteBit(bitmap[i], j) {
              frame := i * 8 + j;
              assert frame in View().clear && frame < Reach(totalFrames);
              assert forall g: nat :: 8 * i <= g < frame ==> Bit(bitmap[..], g);
              return;
            }
          }
        } else {
          FullByte(bitmap[i]);
          assert forall g: nat :: 8 * i <= g < 8 * (i + 1) ==> Bit(bitmap[..], g);
        }
      }
      return -1;
    }

    /** `pmm_alloc_frame`: a physical address, 0 standing for NULL. */
    method Alloc() returns (addr: nat)
      requires Valid()
      modifies this`usedFrames, bitmap
      ensures Valid()
      ensures View() == Step(old(View()), Call.Alloc)
      ensures addr == match old(NextFrame(View())) case None => 0 case Some(f) => f * PAGE_SIZE
    {
      var frame := FirstFree();
      if frame < 0 {
        return 0;
      }
      BitmapSet(frame);
      usedFrames := Wrap(usedFrames + 1);
      return frame * PAGE_SIZE;
    }

    /** `pmm_free_frame`. */
    method Free(addr: nat)
      requires Valid() && InBitmap(Release(addr))
      modifies this`usedFrames, bitmap
      ensures Valid()
      ensures View() == Step(old(View()), Release(addr))
    {
      var frame := addr / PAGE_SIZE;
      if frame >= MAX_FRAMES {
        return;
      }
      ClearMember(bitmap[..], 8 * bitmap.Length, frame);
      if ByteBit(bitmap[frame / 8], frame % 8) {
        BitmapClear(frame);
        usedFrames := Wrap(usedFrames - 1);
      }
    }

    /** `pmm_get_free_memory`. */
    method GetFreeMemory() returns (bytes: nat)
      requires Valid() && Conserved(View())
      ensures bytes == |View().clear| * PAGE_SIZE
    {
      BelowCount(BITMAP_FRAMES, View().clear);
      bytes := Wrap(Wrap(totalFrames - usedFrames) * PAGE_SIZE);
    }
  }
}
