/**
 The memory map from the BIOS to the frame bitmap: `build_multiboot` (boot/stage2.asm) rewrites
 the E820 table as a Multiboot map, and `pmm_init` (kernel/pmm.c) walks that map.
 Memory is an array of 32-bit words; addresses are counted in words.
 */
module MemoryMap {
  import opened Words
  import opened FrameBitmap
  import opened Pmm

  const MBOOT_INFO := 0x1400    // byte address 0x5000
  const MBOOT_MMAP := 0x1440    // byte address 0x5100
  const MMAP_ENTRIES := 0x1800  // byte address 0x6000
  const MMAP_DATA := 0x1801     // byte address 0x6004
  const MEMORY_AVAILABLE := 1

  /** One range of physical memory; base and length are 64-bit values kept as two words. */
  datatype Entry = Entry(baseLo: nat, baseHi: nat, lengthLo: nat, lengthHi: nat, kind: nat)

  /** E820 layout: base, length, type, ACPI attributes. */
  function E820At(mem: seq<nat>, w: nat): Entry
    requires w + 6 <= |mem|
  {
    Entry(mem[w], mem[w + 1], mem[w + 2], mem[w + 3], mem[w + 4])
  }

  /** Multiboot layout: size (20, the size field itself left out), base, length, type. */
  function Record(e: Entry): seq<nat> {
    [20, e.baseLo, e.baseHi, e.lengthLo, e.lengthHi, e.kind]
  }

  function Records(es: seq<Entry>): (ws: seq<nat>)
    ensures |ws| == 6 * |es|
  {
    if es == [] then [] else Records(es[..|es| - 1]) + Record(es[|es| - 1])
  }

  /** The E820 table as the BIOS left it: a count and that many entries. */
  predicate HasE820(mem: seq<nat>) {
    && MMAP_DATA <= |mem| <= TWO32 / 4
    && MMAP_DATA + 6 * mem[MMAP_ENTRIES] <= |mem|
  }

  function E820Table(mem: seq<nat>): (es: seq<Entry>)
    requires HasE820(mem)
    ensures |es| == mem[MMAP_ENTRIES]
    ensures forall k :: 0 <= k < |es| ==> es[k] == E820At(mem, MMAP_DATA + 6 * k)
  {
    seq(mem[MMAP_ENTRIES], k requires 0 <= k < mem[MMAP_ENTRIES] => E820At(mem, MMAP_DATA + 6 * k))
  }

  /** The size in kilobytes recorded for the usable range at `base`, once entry `e` has been seen. */
  function NoteKb(e: Entry, base: nat, before: nat): nat {
    if e.kind == MEMORY_AVAILABLE && e.baseHi == 0 && e.baseLo == base then e.lengthLo / 1024 else before
  }

  /** Kilobytes of the last usable range that starts at physical address `base`, 0 when there is none. */
  function UsableKb(es: seq<Entry>, base: nat): nat {
    if es == [] then 0 else NoteKb(es[|es| - 1], base, UsableKb(es[..|es| - 1], base))
  }

  lemma OneMoreEntry(es: seq<Entry>, k: nat)
    requires k < |es|
    ensures Records(es[..k + 1]) == Records(es[..k]) + Record(es[k])
    ensures forall base :: UsableKb(es[..k + 1], base) == NoteKb(es[k], base, UsableKb(es[..k], base))
  {
    assert es[..k + 1][..k] == es[..k];
  }

  /** `mem` and `was` agree outside the information block and the words `[MBOOT_MMAP, end)`. */
  predicate SameElsewhere(mem: seq<nat>, was: seq<nat>, end: nat)
    requires MBOOT_MMAP <= end <= |mem| == |was|
  {
    && mem[..MBOOT_INFO] == was[..MBOOT_INFO]
    && mem[MBOOT_INFO + 22..MBOOT_MMAP] == was[MBOOT_INFO + 22..MBOOT_MMAP]
    && mem[end..] == was[end..]
  }

  lemma SameTransitive(mem: seq<nat>, now: seq<nat>, was: seq<nat>, end: nat, end': nat)
    requires MBOOT_MMAP <= end <= end' <= |mem| == |now| == |was|
    requires SameElsewhere(now, was, end) && SameElsewhere(mem, now, end')
    ensures SameElsewhere(mem, was, end')
  {
    assert now[end'..] == now[end..][end' - end..] == was[end..][end' - end..] == was[end'..];
  }

  method ZeroInfo(mem: array<nat>)
    requires MBOOT_MMAP <= mem.Length
    modifies mem
    ensures forall w :: MBOOT_INFO <= w < MBOOT_INFO + 22 ==> mem[w] == 0
    ensures SameElsewhere(mem[..], old(mem[..]), MBOOT_MMAP)
  {
    for i := 0 to 22
      invariant forall w :: MBOOT_INFO <= w < MBOOT_INFO + i ==> mem[w] == 0
      invariant forall w :: 0 <= w < mem.Length && !(MBOOT_INFO <= w < MBOOT_INFO + i) ==> mem[w] == old(mem[w])
    {
      mem[MBOOT_INFO + i] := 0;
    }
  }

  /** What one round of the conversion loop does, entry `esi` going to `edi`. */
  predicate Round(mem: seq<nat>, now: seq<nat>, esi: nat, edi: nat)
    requires MBOOT_MMAP <= edi && edi + 6 <= esi && esi + 6 <= |mem| == |now|
  {
    && mem[MBOOT_MMAP..edi + 6] == now[MBOOT_MMAP..edi] + Record(E820At(now, esi))
    && mem[MBOOT_INFO + 1] == NoteKb(E820At(now, esi), 0, now[MBOOT_INFO + 1])
    && mem[MBOOT_INFO + 2] == NoteKb(E820At(now, esi), 0x100000, now[MBOOT_INFO + 2])
    && SameElsewhere(mem, now, edi + 6)
  }

  method CopyRecord(mem: array<nat>, esi: nat, edi: nat)
    requires edi + 6 <= esi && esi + 6 <= mem.Length
    modifies mem
    ensures forall w :: 0 <= w < mem.Length && !(edi <= w < edi + 6) ==> mem[w] == old(mem[w])
    ensures forall i :: 0 <= i < 6 ==> mem[edi + i] == Record(E820At(old(mem[..]), esi))[i]
  {
    mem[edi] := 20;
    mem[edi + 1] := mem[esi];
    mem[edi + 2] := mem[esi + 1];
    mem[edi + 3] := mem[esi + 2];
    mem[edi + 4] := mem[esi + 3];
    mem[edi + 5] := mem[esi + 4];
  }

  method ConvertEntry(mem: array<nat>, esi: nat, edi: nat)
    requires MBOOT_MMAP <= edi && edi + 6 <= esi && esi + 6 <= mem.Length
    modifies mem
    ensures Round(mem[..], old(mem[..]), esi, edi)
  {
    CopyRecord(mem, esi, edi);
    if mem[esi + 4] == MEMORY_AVAILABLE && mem[esi] == 0 && mem[esi + 1] == 0 {
      mem[MBOOT_INFO + 1] := mem[esi + 2] / 1024;
    }
    if mem[esi + 4] == MEMORY_AVAILABLE && mem[esi + 1] == 0 && mem[esi] == 0x100000 {
      mem[MBOOT_INFO + 2] := mem[esi + 2] / 1024;
    }
    RoundDone(mem[..], old(mem[..]), esi, edi);
  }

  /** The round, from what it did word by word. */
  lemma RoundDone(mem: seq<nat>, now: seq<nat>, esi: nat, edi: nat)
    requires MBOOT_MMAP <= edi && edi + 6 <= esi && esi + 6 <= |mem| == |now|
    requires forall w :: 0 <= w < |mem| && !(edi <= w < edi + 6) && w != MBOOT_INFO + 1 && w != MBOOT_INFO + 2 ==> mem[w] == now[w]
    requires forall i :: 0 <= i < 6 ==> mem[edi + i] == Record(E820At(now, esi))[i]
    requires mem[MBOOT_INFO + 1] == NoteKb(E820At(now, esi), 0, now[MBOOT_INFO + 1])
    requires mem[MBOOT_INFO + 2] == NoteKb(E820At(now, esi), 0x100000, now[MBOOT_INFO + 2])
    ensures Round(mem, now, esi, edi)
  {
    var made, meant := mem[MBOOT_MMAP..edi + 6], now[MBOOT_MMAP..edi] + Record(E820At(now, esi));
    forall i | 0 <= i < |made| ensures made[i] == meant[i] {
      if i >= edi - MBOOT_MMAP {
        assert made[i] == mem[edi + (i - (edi - MBOOT_MMAP))];
      }
    }
    assert SameElsewhere(mem, now, edi + 6) by {
      assert mem[..MBOOT_INFO] == now[..MBOOT_INFO];
      assert mem[MBOOT_INFO + 22..MBOOT_MMAP] == now[MBOOT_INFO + 22..MBOOT_MMAP];
      assert mem[edi + 6..] == now[edi + 6..];
    }
  }

  /** The first `k` of the entries `es` are converted and everything else is as in `was`. */
  predicate Progress(mem: seq<nat>, was: seq<nat>, es: seq<Entry>, k: nat)
    requires k <= |es| && MBOOT_MMAP + 6 * |es| <= |was|
  {
    && |mem| == |was|
    && mem[MBOOT_MMAP..MBOOT_MMAP + 6 * k] == Records(es[..k])
    && mem[MBOOT_INFO + 1] == UsableKb(es[..k], 0)
    && mem[MBOOT_INFO + 2] == UsableKb(es[..k], 0x100000)
    && SameElsewhere(mem, was, MBOOT_MMAP + 6 * k)
  }

  /** The destination stays below what is unread, so each round converts an entry as the BIOS wrote it. */
  lemma RoundProgresses(mem: seq<nat>, now: seq<nat>, was: seq<nat>, es: seq<Entry>, k: nat)
    requires k < |es| && MMAP_DATA + 6 * |es| <= |was| == |mem|
    requires es[k] == E820At(was, MMAP_DATA + 6 * k)
    requires Progress(now, was, es, k) && Round(mem, now, MMAP_DATA + 6 * k, MBOOT_MMAP + 6 * k)
    ensures Progress(mem, was, es, k + 1)
  {
    var end := MBOOT_MMAP + 6 * k;
    assert forall w :: end <= w < |now| ==> now[w] == now[end..][w - end] == was[w];
    assert E820At(now, MMAP_DATA + 6 * k) == es[k];
    OneMoreEntry(es, k);
    SameTransitive(mem, now, was, end, end + 6);
  }

  /**
   The conversion loop. Source and destination overlap once there are more than 160 entries; the copy
   still delivers every entry.
   */
  method ConvertAll(mem: array<nat>, count: nat, ghost was: seq<nat>, ghost es: seq<Entry>) returns (edx: nat)
    requires count == |es| && MMAP_DATA + 6 * |es| <= |was|
    requires forall k :: 0 <= k < |es| ==> es[k] == E820At(was, MMAP_DATA + 6 * k)
    requires Progress(mem[..], was, es, 0)
    modifies mem
    ensures Progress(mem[..], was, es, |es|)
    ensures edx == 24 * |es|
  {
    var esi, edi, ecx := MMAP_DATA, MBOOT_MMAP, count;
    edx := 0;
    ghost var k := 0;
    while ecx != 0
      invariant 0 <= k <= |es| && ecx == |es| - k
      invariant esi == MMAP_DATA + 6 * k && edi == MBOOT_MMAP + 6 * k && edx == 24 * k
      invariant Progress(mem[..], was, es, k)
      decreases ecx
    {
      ghost var now := mem[..];
      ConvertEntry(mem, esi, edi);
      RoundProgresses(mem[..], now, was, es, k);
      esi, edi, edx, ecx, k := esi + 6, edi + 6, edx + 24, ecx - 1, k + 1;
    }
  }

  /** Record `k` of the map: 20, then base, length and type of BIOS entry `k`, word by word. */
  predicate RecordCopied(mem: seq<nat>, was: seq<nat>, k: nat)
    requires MBOOT_MMAP + 6 * k + 6 <= |mem| && MMAP_DATA + 6 * k + 6 <= |was|
  {
    && mem[MBOOT_MMAP + 6 * k] == 20
    && mem[MBOOT_MMAP + 6 * k + 1] == was[MMAP_DATA + 6 * k]
    && mem[MBOOT_MMAP + 6 * k + 2] == was[MMAP_DATA + 6 * k + 1]
    && mem[MBOOT_MMAP + 6 * k + 3] == was[MMAP_DATA + 6 * k + 2]
    && mem[MBOOT_MMAP + 6 * k + 4] == was[MMAP_DATA + 6 * k + 3]
    && mem[MBOOT_MMAP + 6 * k + 5] == was[MMAP_DATA + 6 * k + 4]
  }

  /** BIOS entry `k` is usable memory that starts at `base`. */
  predicate UsableFrom(was: seq<nat>, base: nat, k: nat)
    requires MMAP_DATA + 6 * k + 6 <= |was|
  {
    was[MMAP_DATA + 6 * k + 4] == 1 && was[MMAP_DATA + 6 * k + 1] == 0 && was[MMAP_DATA + 6 * k] == base
  }

  /** `kb` is the length in kilobytes of the last of the first `n` BIOS entries that is usable from `base`, or 0. */
  ghost predicate LastUsableKb(was: seq<nat>, n: nat, base: nat, kb: nat)
    requires MMAP_DATA + 6 * n <= |was|
  {
    if forall k :: 0 <= k < n ==> !UsableFrom(was, base, k) then kb == 0
    else
      exists k :: 0 <= k < n && UsableFrom(was, base, k) && kb == was[MMAP_DATA + 6 * k + 2] / 1024
                  && forall l :: k < l < n ==> !UsableFrom(was, base, l)
  }

  lemma {:induction false} NotedIsLast(was: seq<nat>, es: seq<Entry>, n: nat, base: nat)
    requires n <= |es| && MMAP_DATA + 6 * |es| <= |was| && forall k :: 0 <= k < |es| ==> es[k] == E820At(was, MMAP_DATA + 6 * k)
    ensures LastUsableKb(was, n, base, UsableKb(es[..n], base))
  {
    if n > 0 {
      NotedIsLast(was, es, n - 1, base);
      assert es[..n][..n - 1] == es[..n - 1] && es[..n][n - 1] == es[n - 1];
      if UsableFrom(was, base, n - 1) {
        assert UsableKb(es[..n], base) == was[MMAP_DATA + 6 * (n - 1) + 2] / 1024;
      } else {
        assert UsableKb(es[..n], base) == UsableKb(es[..n - 1], base);
      }
    }
  }

  lemma {:induction false} RecordWord(es: seq<Entry>, k: nat, i: nat)
    requires k < |es| && i < 6
    ensures Records(es)[6 * k + i] == Record(es[k])[i]
  {
    if k < |es| - 1 {
      RecordWord(es[..|es| - 1], k, i);
    }
  }

  lemma SliceIndex(s: seq<nat>, a: nat, b: nat, i: nat)
    requires a <= b <= |s| && i < b - a
    ensures s[a..b][i] == s[a + i]
  {
  }

  lemma WordOfRecords(mem: seq<nat>, es: seq<Entry>, k: nat, i: nat)
    requires k < |es| && i < 6 && MBOOT_MMAP + 6 * |es| <= |mem|
    requires mem[MBOOT_MMAP..MBOOT_MMAP + 6 * |es|] == Records(es)
    ensures mem[MBOOT_MMAP + 6 * k + i] == Record(es[k])[i]
  {
    RecordWord(es, k, i);
    SliceIndex(mem, MBOOT_MMAP, MBOOT_MMAP + 6 * |es|, 6 * k + i);
  }

  lemma CopiedFromRecords(mem: seq<nat>, was: seq<nat>, es: seq<Entry>, k: nat)
    requires k < |es| && MMAP_DATA + 6 * |es| <= |was| == |mem| && es[k] == E820At(was, MMAP_DATA + 6 * k)
    requires forall i {:trigger Record(es[k])[i]} :: 0 <= i < 6 ==> mem[MBOOT_MMAP + 6 * k + i] == Record(es[k])[i]
    ensures RecordCopied(mem, was, k)
  {
    var r := Record(es[k]);
    assert mem[MBOOT_MMAP + 6 * k + 0] == r[0] && mem[MBOOT_MMAP + 6 * k + 1] == r[1] && mem[MBOOT_MMAP + 6 * k + 2] == r[2];
    assert mem[MBOOT_MMAP + 6 * k + 3] == r[3] && mem[MBOOT_MMAP + 6 * k + 4] == r[4] && mem[MBOOT_MMAP + 6 * k + 5] == r[5];
  }

  /** What `build_multiboot` leaves, from the words that the BIOS left. */
  ghost predicate BuiltFrom(mem: seq<nat>, was: seq<nat>)
    requires HasE820(was) && |mem| == |was|
  {
    && (forall k :: 0 <= k < was[MMAP_ENTRIES] ==> RecordCopied(mem, was, k))
    && LastUsableKb(was, was[MMAP_ENTRIES], 0, mem[MBOOT_INFO + 1])
    && LastUsableKb(was, was[MMAP_ENTRIES], 0x100000, mem[MBOOT_INFO + 2])
  }

  lemma BuiltFromRecords(mem: seq<nat>, was: seq<nat>, es: seq<Entry>)
    requires HasE820(was) && |mem| == |was| && es == E820Table(was)
    requires mem[MBOOT_MMAP..MBOOT_MMAP + 6 * |es|] == Records(es)
    requires mem[MBOOT_INFO + 1] == UsableKb(es, 0) && mem[MBOOT_INFO + 2] == UsableKb(es, 0x100000)
    ensures BuiltFrom(mem, was)
  {
    forall k | 0 <= k < |es| ensures RecordCopied(mem, was, k) {
      forall i | 0 <= i < 6 ensures mem[MBOOT_MMAP + 6 * k + i] == Record(es[k])[i] {
        WordOfRecords(mem, es, k, i);
      }
      CopiedFromRecords(mem, was, es, k);
    }
    assert es[..|es|] == es;
    NotedIsLast(was, es, |es|, 0);
    NotedIsLast(was, es, |es|, 0x100000);
  }

  /** `build_multiboot`: the E820 table becomes the Multiboot map, entry for entry. */
  method BuildMultiboot(mem: array<nat>, bootName: nat)
    requires HasE820(mem[..])
    modifies mem
    ensures var es := E820Table(old(mem[..]));
            && mem[MBOOT_MMAP..MBOOT_MMAP + 6 * |es|] == Records(es)
            && SameElsewhere(mem[..], old(mem[..]), MBOOT_MMAP + 6 * |es|)
            && mem[MBOOT_INFO] == 0x241
            && mem[MBOOT_INFO + 1] == UsableKb(es, 0)
            && mem[MBOOT_INFO + 2] == UsableKb(es, 0x100000)
            && mem[MBOOT_INFO + 11] == 24 * |es|
            && mem[MBOOT_INFO + 12] == 4 * MBOOT_MMAP
            && mem[MBOOT_INFO + 16] == bootName
    ensures BuiltFrom(mem[..], old(mem[..]))
  {
    ghost var was := mem[..];
    ghost var es := E820Table(was);
    ZeroInfo(mem);
    var edx := ConvertAll(mem, mem[MMAP_ENTRIES], was, es);
    assert es[..|es|] == es;
    ghost var now := mem[..];
    mem[MBOOT_INFO] := 0x241;
    mem[MBOOT_INFO + 11] := edx;
    mem[MBOOT_INFO + 12] := 4 * MBOOT_MMAP;
    mem[MBOOT_INFO + 16] := bootName;
    assert mem[MBOOT_INFO + 22..] == now[MBOOT_INFO + 22..];
    SameAbove(mem[..], now, was, MBOOT_MMAP + 6 * |E820Table(was)|);
    BuiltFromRecords(mem[..], was, es);
  }

  lemma SameAbove(mem: seq<nat>, now: seq<nat>, was: seq<nat>, end: nat)
    requires MBOOT_MMAP <= end <= |mem| == |now| == |was| && SameElsewhere(now, was, end)
    requires mem[..MBOOT_INFO] == now[..MBOOT_INFO] && mem[MBOOT_INFO + 22..] == now[MBOOT_INFO + 22..]
    ensures SameElsewhere(mem, was, end) && mem[MBOOT_MMAP..end] == now[MBOOT_MMAP..end]
  {
    var above := MBOOT_INFO + 22;
    assert mem[above..MBOOT_MMAP] == mem[above..][..MBOOT_MMAP - above];
    assert now[above..MBOOT_MMAP] == now[above..][..MBOOT_MMAP - above];
    assert mem[end..] == mem[above..][end - above..] && now[end..] == now[above..][end - above..];
    assert mem[MBOOT_MMAP..end] == mem[above..][MBOOT_MMAP - above..end - above];
    assert now[MBOOT_MMAP..end] == now[above..][MBOOT_MMAP - above..end - above];
  }

  /** A Multiboot map from word `w` up to `end`: each record names the distance to the next. */
  predicate Table(mem: seq<nat>, w: nat, end: nat, es: seq<Entry>)
    decreases |es|
  {
    if es == [] then end <= w
    else
      && w < end && w + 6 <= |mem|
      && mem[w] % 4 == 0 && mem[w + 1..w + 6] == Record(es[0])[1..]
      && Table(mem, w + mem[w] / 4 + 1, end, es[1..])
  }

  lemma {:induction false} RecordAt(es: seq<Entry>, k: nat)
    requires k < |es|
    ensures Records(es)[6 * k..6 * k + 6] == Record(es[k])
  {
    if k < |es| - 1 {
      RecordAt(es[..|es| - 1], k);
      assert Records(es)[6 * k..6 * k + 6] == Records(es[..|es| - 1])[6 * k..6 * k + 6];
    }
  }

  lemma SliceOfSlice(s: seq<nat>, a: nat, b: nat, c: nat, d: nat)
    requires a <= b <= |s| && c <= d <= b - a
    ensures s[a..b][c..d] == s[a + c..a + d]
  {
    forall i | 0 <= i < d - c ensures s[a..b][c..d][i] == s[a + c..a + d][i] {
      assert s[a..b][c + i] == s[a + (c + i)];
    }
  }

  /** What `build_multiboot` leaves is a map whose walk visits exactly the E820 entries, in order, and ends. */
  lemma {:induction false} BuiltTable(mem: seq<nat>, es: seq<Entry>, k: nat)
    requires k <= |es| && MBOOT_MMAP + 6 * |es| <= |mem|
    requires mem[MBOOT_MMAP..MBOOT_MMAP + 6 * |es|] == Records(es)
    ensures Table(mem, MBOOT_MMAP + 6 * k, MBOOT_MMAP + 6 * |es|, es[k..])
    decreases |es| - k
  {
    if k < |es| {
      var w := MBOOT_MMAP + 6 * k;
      RecordAt(es, k);
      SliceOfSlice(mem, MBOOT_MMAP, MBOOT_MMAP + 6 * |es|, 6 * k, 6 * k + 6);
      assert mem[w + 1..w + 6] == mem[w..w + 6][1..] && mem[w] == mem[w..w + 6][0];
      assert es[k..][1..] == es[k + 1..];
      BuiltTable(mem, es, k + 1);
    }
  }

  /** First frame of an entry as `pmm_init` computes it, from the low words, in 32 bits. */
  function StartFrame(e: Entry): nat {
    Wrap(e.baseLo + 4095) / 4096
  }

  function EndFrame(e: Entry): nat {
    Wrap(e.baseLo + e.lengthLo) / 4096
  }

  /** Past the first megabyte and the kernel image, and below the loop bound. */
  predicate Eligible(f: nat, kernelEnd: nat) {
    0x100000 <= f * 4096 && kernelEnd <= f * 4096 && f < MAX_FRAMES
  }

  /** The frames whose bit `pmm_init` clears for entry `e`. */
  function Visited(e: Entry, kernelEnd: nat): set<nat> {
    if e.kind != MEMORY_AVAILABLE then {}
    else EligibleFrames(StartFrame(e), EndFrame(e), kernelEnd)
  }

  function EligibleFrames(start: nat, end: nat, kernelEnd: nat): set<nat> {
    set f: nat | start <= f < end && Eligible(f, kernelEnd)
  }

  function AllVisited(es: seq<Entry>, kernelEnd: nat): set<nat> {
    if es == [] then {} else Visited(es[0], kernelEnd) + AllVisited(es[1..], kernelEnd)
  }

  function VisitCount(es: seq<Entry>, kernelEnd: nat): nat {
    if es == [] then 0 else |Visited(es[0], kernelEnd)| + VisitCount(es[1..], kernelEnd)
  }

  lemma {:induction false} VisitedSplit(es: seq<Entry>, kernelEnd: nat, k: nat)
    requires k < |es|
    ensures AllVisited(es[..k + 1], kernelEnd) == AllVisited(es[..k], kernelEnd) + Visited(es[k], kernelEnd)
    ensures VisitCount(es[..k + 1], kernelEnd) == VisitCount(es[..k], kernelEnd) + |Visited(es[k], kernelEnd)|
  {
    if k > 0 {
      VisitedSplit(es[1..], kernelEnd, k - 1);
      assert es[..k + 1][1..] == es[1..][..k] && es[..k][1..] == es[1..][..k - 1];
    } else {
      assert es[..1][1..] == [] && es[..0] == [];
    }
  }

  lemma {:induction false} VisitedMember(es: seq<Entry>, kernelEnd: nat, f: nat)
    ensures f in AllVisited(es, kernelEnd) <==> exists k :: 0 <= k < |es| && f in Visited(es[k], kernelEnd)
  {
    if es != [] {
      VisitedMember(es[1..], kernelEnd, f);
      if f in AllVisited(es[1..], kernelEnd) {
        var k :| 0 <= k < |es[1..]| && f in Visited(es[1..][k], kernelEnd);
        assert f in Visited(es[k + 1], kernelEnd);
      }
      forall k | 0 <= k < |es| && f in Visited(es[k], kernelEnd)
        ensures f in AllVisited(es, kernelEnd)
      {
        if k > 0 {
          assert f in Visited(es[1..][k - 1], kernelEnd);
        }
      }
    }
  }

  /** No entry reaches the two frames that the loop bound admits and the bitmap does not hold. */
  ghost predicate InsideBitmap(es: seq<Entry>, kernelEnd: nat) {
    forall f :: f in AllVisited(es, kernelEnd) ==> f < BITMAP_FRAMES
  }

  /** No frame is in the ranges of two entries. */
  predicate DisjointEntries(es: seq<Entry>, kernelEnd: nat) {
    forall i, j :: 0 <= i < j < |es| ==> Visited(es[i], kernelEnd) !! Visited(es[j], kernelEnd)
  }

  /** `total_frames` counts each available frame once exactly when no two entries share a frame. */
  lemma {:induction false} TotalCountsOnce(es: seq<Entry>, kernelEnd: nat)
    ensures |AllVisited(es, kernelEnd)| <= VisitCount(es, kernelEnd)
    ensures VisitCount(es, kernelEnd) == |AllVisited(es, kernelEnd)| <==> DisjointEntries(es, kernelEnd)
  {
    if es != [] {
      var a, b := Visited(es[0], kernelEnd), AllVisited(es[1..], kernelEnd);
      TotalCountsOnce(es[1..], kernelEnd);
      assert |a + b| + |a * b| == |a| + |b|;
      if a !! b {
        assert a * b == {};
      } else {
        var f :| f in a && f in b;
        assert f in a * b;
      }
      DisjointHead(es, kernelEnd);
    }
  }

  lemma DisjointHead(es: seq<Entry>, kernelEnd: nat)
    requires es != []
    ensures DisjointEntries(es, kernelEnd) <==>
            DisjointEntries(es[1..], kernelEnd) && Visited(es[0], kernelEnd) !! AllVisited(es[1..], kernelEnd)
  {
    var a, b := Visited(es[0], kernelEnd), AllVisited(es[1..], kernelEnd);
    forall f ensures f in b <==> exists k :: 0 <= k < |es[1..]| && f in Visited(es[1..][k], kernelEnd) {
      VisitedMember(es[1..], kernelEnd, f);
    }
    if DisjointEntries(es[1..], kernelEnd) && a !! b {
      forall i, j | 0 <= i < j < |es|
        ensures Visited(es[i], kernelEnd) !! Visited(es[j], kernelEnd)
      {
        assert es[j] == es[1..][j - 1];
        if i > 0 {
          assert es[i] == es[1..][i - 1];
        }
      }
    }
  }

  /** The 64-bit range an entry describes. */
  function Base(e: Entry): nat {
    e.baseLo + e.baseHi * 0x1_0000_0000
  }

  function Limit(e: Entry): nat {
    Base(e) + e.lengthLo + e.lengthHi * 0x1_0000_0000
  }

  predicate IsEntry(e: Entry) {
    e.baseLo < TWO32 && e.baseHi < TWO32 && e.lengthLo < TWO32 && e.lengthHi < TWO32
  }

  /** Frame `f` lies wholly inside the available range `e` and may be handed out. */
  predicate Usable(e: Entry, kernelEnd: nat, f: nat) {
    e.kind == MEMORY_AVAILABLE && Base(e) <= f * 4096 && (f + 1) * 4096 <= Limit(e) && Eligible(f, kernelEnd)
  }

  /** The frames `[start, end)` that are eligible form an interval; these are its bounds. */
  function ClipLow(start: nat, kernelEnd: nat): nat {
    var low := if kernelEnd <= 0x100000 then 256 else (kernelEnd + 4095) / 4096;
    if start < low then low else start
  }

  function ClipHigh(end: nat): nat {
    if end < MAX_FRAMES then end else MAX_FRAMES
  }

  /** The bounds computed in 32 bits clip to the same frames as the 64-bit bounds. */
  predicate Untruncated(e: Entry, kernelEnd: nat) {
    var low, high := ClipLow((Base(e) + 4095) / 4096, kernelEnd), ClipHigh(Limit(e) / 4096);
    var low32, high32 := ClipLow(StartFrame(e), kernelEnd), ClipHigh(EndFrame(e));
    (low == low32 && high == high32) || (high <= low && high32 <= low32)
  }

  /** An available entry frees exactly its usable frames if and only if truncation leaves its clipped bounds alone. */
  lemma FreesExactlyUsable(e: Entry, kernelEnd: nat)
    requires IsEntry(e) && e.kind == MEMORY_AVAILABLE
    ensures (forall f: nat :: f in Visited(e, kernelEnd) <==> Usable(e, kernelEnd, f)) <==> Untruncated(e, kernelEnd)
  {
    var low, high := ClipLow((Base(e) + 4095) / 4096, kernelEnd), ClipHigh(Limit(e) / 4096);
    var low32, high32 := ClipLow(StartFrame(e), kernelEnd), ClipHigh(EndFrame(e));
    forall f: nat
      ensures f in Visited(e, kernelEnd) <==> Within(f, low32, high32)
      ensures Usable(e, kernelEnd, f) <==> Within(f, low, high)
    {
    }
    SameInterval(low, high, low32, high32);
    if forall f: nat :: f in Visited(e, kernelEnd) <==> Usable(e, kernelEnd, f) {
      assert forall f: nat :: Within(f, low, high) <==> Within(f, low32, high32);
    }
  }

  /** Of a map that truncation leaves alone, the bitmap shows exactly the usable frames as clear. */
  lemma BitmapIsUsable(es: seq<Entry>, kernelEnd: nat, f: nat)
    requires forall k :: 0 <= k < |es| && es[k].kind == MEMORY_AVAILABLE ==> IsEntry(es[k]) && Untruncated(es[k], kernelEnd)
    ensures f in AllVisited(es, kernelEnd) <==> exists k :: 0 <= k < |es| && Usable(es[k], kernelEnd, f)
  {
    VisitedMember(es, kernelEnd, f);
    forall k | 0 <= k < |es| ensures f in Visited(es[k], kernelEnd) <==> Usable(es[k], kernelEnd, f) {
      if es[k].kind == MEMORY_AVAILABLE {
        FreesExactlyUsable(es[k], kernelEnd);
      }
    }
  }

  predicate Within(f: nat, low: nat, high: nat) {
    low <= f < high
  }

  lemma SameInterval(a: nat, b: nat, c: nat, d: nat)
    ensures (forall f: nat :: Within(f, a, b) <==> Within(f, c, d)) <==> (a == c && b == d) || (b <= a && d <= c)
  {
    if forall f: nat :: Within(f, a, b) <==> Within(f, c, d) {
      assert Within(a, a, b) <==> Within(a, c, d);
      assert Within(c, a, b) <==> Within(c, c, d);
      assert Within(b, a, b) <==> Within(b, c, d);
      assert Within(d, a, b) <==> Within(d, c, d);
    }
  }

  /** Every range that ends below 4 GB and does not start in the last page is freed exactly. */
  lemma Below4GB(e: Entry, kernelEnd: nat)
    requires IsEntry(e) && Limit(e) < TWO32 && Base(e) + 4095 < TWO32
    ensures Untruncated(e, kernelEnd)
  {
  }

  /** A range above 4 GB is read as low memory: 1 GB at 4 GB frees the first eligible frame below. */
  lemma HighMemoryAliasesLow(kernelEnd: nat)
    requires kernelEnd <= 0x400000
    ensures var e := Entry(0, 1, 0x4000_0000, 0, MEMORY_AVAILABLE);
            1024 in Visited(e, kernelEnd) && !Usable(e, kernelEnd, 1024) && !Untruncated(e, kernelEnd)
  {
    var e := Entry(0, 1, 0x4000_0000, 0, MEMORY_AVAILABLE);
    assert StartFrame(e) == 0 && EndFrame(e) == 0x40000;
    FreesExactlyUsable(e, kernelEnd);
  }

  lemma EligibleNext(start: nat, frame: nat, kernelEnd: nat)
    requires start <= frame
    ensures frame !in EligibleFrames(start, frame, kernelEnd)
    ensures Eligible(frame, kernelEnd) ==>
              EligibleFrames(start, frame + 1, kernelEnd) == EligibleFrames(start, frame, kernelEnd) + {frame}
    ensures !Eligible(frame, kernelEnd) ==>
              EligibleFrames(start, frame + 1, kernelEnd) == EligibleFrames(start, frame, kernelEnd)
  {
  }

  /** The frame loop for one available entry. */
  method FreeRange(pmm: FrameAllocator, startFrame: nat, endFrame: nat, kernelEnd: nat)
    requires pmm.bitmap.Length == BITMAP_BYTES
    requires forall f :: f in EligibleFrames(startFrame, endFrame, kernelEnd) ==> f < BITMAP_FRAMES
    modifies pmm`totalFrames, pmm.bitmap
    ensures var freed := EligibleFrames(startFrame, endFrame, kernelEnd);
            && ClearFrames(pmm.bitmap[..]) == old(ClearFrames(pmm.bitmap[..])) + freed
            && pmm.totalFrames == old(pmm.totalFrames) + |freed|
  {
    var frame := startFrame;
    ghost var freed := EligibleFrames(startFrame, frame, kernelEnd);
    assert freed == {};
    while frame < endFrame && frame < MAX_FRAMES
      invariant startFrame <= frame && (frame <= endFrame || frame == startFrame)
      invariant freed == EligibleFrames(startFrame, frame, kernelEnd)
      invariant ClearFrames(pmm.bitmap[..]) == old(ClearFrames(pmm.bitmap[..])) + freed
      invariant pmm.totalFrames == old(pmm.totalFrames) + |freed|
    {
      var addr := frame * 4096;
      EligibleNext(startFrame, frame, kernelEnd);
      if !(addr < 0x100000 || addr < kernelEnd) {
        assert frame in EligibleFrames(startFrame, endFrame, kernelEnd);
        pmm.BitmapClear(frame);
        pmm.totalFrames := pmm.totalFrames + 1;
        freed := freed + {frame};
      }
      frame := frame + 1;
    }
    assert freed == EligibleFrames(startFrame, endFrame, kernelEnd);
  }

  lemma TableHead(mem: seq<nat>, w: nat, end: nat, es: seq<Entry>, k: nat)
    requires k <= |es| && Table(mem, w, end, es[k..]) && w < end
    ensures k < |es| && w + 6 <= |mem| && Table(mem, w + mem[w] / 4 + 1, end, es[k + 1..])
    ensures es[k] == Entry(mem[w + 1], mem[w + 2], mem[w + 3], mem[w + 4], mem[w + 5])
  {
    assert es[k..][1..] == es[k + 1..];
    var fields, e := mem[w + 1..w + 6], es[k..][0];
    assert fields[0] == e.baseLo && fields[1] == e.baseHi && fields[2] == e.lengthLo;
    assert fields[3] == e.lengthHi && fields[4] == e.kind;
  }

  /** The walk is past the first `k` entries. */
  predicate Walked(clear: set<nat>, total: nat, es: seq<Entry>, k: nat, kernelEnd: nat)
    requires k <= |es|
  {
    clear == AllVisited(es[..k], kernelEnd) && total == VisitCount(es[..k], kernelEnd)
  }

  lemma WalkedOneMore(clear: set<nat>, total: nat, es: seq<Entry>, k: nat, kernelEnd: nat)
    requires k < |es| && Walked(clear, total, es, k, kernelEnd) && InsideBitmap(es, kernelEnd)
    ensures var visited := Visited(es[k], kernelEnd);
            && (forall f :: f in visited ==> f < BITMAP_FRAMES)
            && Walked(clear + visited, total + |visited|, es, k + 1, kernelEnd)
  {
    VisitedSplit(es, kernelEnd, k);
    forall f | f in Visited(es[k], kernelEnd) ensures f < BITMAP_FRAMES {
      VisitedMember(es, kernelEnd, f);
    }
  }

  /** One round of the walk: a record is read, its frames freed, and its size leads to the next. */
  method WalkRecord(pmm: FrameAllocator, mem: array<nat>, mmap: nat, mmapEnd: nat, kernelEnd: nat, ghost es: seq<Entry>, ghost k: nat)
    returns (next: nat, ghost k': nat)
    requires pmm.bitmap.Length == BITMAP_BYTES && mem as object != pmm.bitmap && mmap < mmapEnd
    requires k <= |es| && Table(mem[..], mmap, mmapEnd, es[k..]) && InsideBitmap(es, kernelEnd)
    requires Walked(ClearFrames(pmm.bitmap[..]), pmm.totalFrames, es, k, kernelEnd)
    modifies pmm`totalFrames, pmm.bitmap
    ensures mmap < next && k' <= |es| && Table(mem[..], next, mmapEnd, es[k'..])
    ensures Walked(ClearFrames(pmm.bitmap[..]), pmm.totalFrames, es, k', kernelEnd)
  {
    TableHead(mem[..], mmap, mmapEnd, es, k);
    var e := Entry(mem[mmap + 1], mem[mmap + 2], mem[mmap + 3], mem[mmap + 4], mem[mmap + 5]);
    WalkedOneMore(ClearFrames(pmm.bitmap[..]), pmm.totalFrames, es, k, kernelEnd);
    if e.kind == MEMORY_AVAILABLE {
      FreeRange(pmm, StartFrame(e), EndFrame(e), kernelEnd);
    }
    next, k' := mmap + mem[mmap] / 4 + 1, k + 1;
  }

  /** The walk over the map. */
  method WalkMap(pmm: FrameAllocator, mem: array<nat>, mmapAddr: nat, mmapEnd: nat, kernelEnd: nat, ghost es: seq<Entry>)
    requires pmm.bitmap.Length == BITMAP_BYTES && mem as object != pmm.bitmap
    requires Table(mem[..], mmapAddr, mmapEnd, es) && InsideBitmap(es, kernelEnd)
    requires ClearFrames(pmm.bitmap[..]) == {} && pmm.totalFrames == 0
    modifies pmm`totalFrames, pmm.bitmap
    ensures Walked(ClearFrames(pmm.bitmap[..]), pmm.totalFrames, es, |es|, kernelEnd)
  {
    var mmap := mmapAddr;
    ghost var k := 0;
    while mmap < mmapEnd
      invariant 0 <= k <= |es| && Table(mem[..], mmap, mmapEnd, es[k..])
      invariant Walked(ClearFrames(pmm.bitmap[..]), pmm.totalFrames, es, k, kernelEnd)
      decreases mmapEnd - mmap
    {
      mmap, k := WalkRecord(pmm, mem, mmap, mmapEnd, kernelEnd, es, k);
    }
  }

  /**
   `pmm_init`: every frame starts in use, then the walk over the map clears what each available entry
   allows. The `Table` precondition says there is a map; `es` names its entries.
   */
  method PmmInit(pmm: FrameAllocator, mem: array<nat>, hasMap: bool, mmapAddr: nat, mmapLength: nat,
                 kernelEndVirtual: nat, ghost es: seq<Entry>)
    requires pmm.bitmap.Length == BITMAP_BYTES && pmm.totalFrames == 0
    requires mem as object != pmm.bitmap && 0xC000_0000 <= kernelEndVirtual < TWO32
    requires hasMap ==> Table(mem[..], mmapAddr, mmapAddr + mmapLength, es)
    requires InsideBitmap(es, PageAlign(kernelEndVirtual - 0xC000_0000))
    requires VisitCount(es, PageAlign(kernelEndVirtual - 0xC000_0000)) < TWO32
    modifies pmm`totalFrames, pmm.bitmap
    ensures var kernelEnd := PageAlign(kernelEndVirtual - 0xC000_0000);
            && ClearFrames(pmm.bitmap[..]) == (if hasMap then AllVisited(es, kernelEnd) else {})
            && pmm.totalFrames == (if hasMap then VisitCount(es, kernelEnd) else 0)
  {
    pmm.MarkAllUsed();
    if !hasMap {
      return;
    }
    WalkMap(pmm, mem, mmapAddr, mmapAddr + mmapLength, PageAlign(kernelEndVirtual - 0xC000_0000), es);
    assert es[..|es|] == es;
  }

  /** After `pmm_init` on a map whose entries share no frame, the allocator is valid and its count conserved. */
  lemma InitConserves(es: seq<Entry>, kernelEnd: nat)
    requires DisjointEntries(es, kernelEnd)
    requires InsideBitmap(es, kernelEnd)
    ensures Conserved(Frames(AllVisited(es, kernelEnd), VisitCount(es, kernelEnd), 0))
    ensures VisitCount(es, kernelEnd) / 8 <= BITMAP_BYTES
    ensures forall f :: f in AllVisited(es, kernelEnd) ==> 256 <= f && kernelEnd <= f * 4096
  {
    TotalCountsOnce(es, kernelEnd);
    BelowCount(BITMAP_FRAMES, AllVisited(es, kernelEnd));
    forall f | f in AllVisited(es, kernelEnd) ensures 256 <= f && kernelEnd <= f * 4096 {
      VisitedMember(es, kernelEnd, f);
    }
  }

  // ---- Maps that go wrong ----

  /** Some entry has the walk clear a bit past the bitmap: exactly when it is available and reaches frame 32784 or 32785. */
  lemma PastBitmap(es: seq<Entry>, kernelEnd: nat)
    requires kernelEnd <= 4096 * BITMAP_FRAMES
    ensures !InsideBitmap(es, kernelEnd) <==> exists k :: 0 <= k < |es| && ReachesPast(es[k])
  {
    if !InsideBitmap(es, kernelEnd) {
      var f :| f in AllVisited(es, kernelEnd) && f >= BITMAP_FRAMES;
      VisitedMember(es, kernelEnd, f);
      var k :| 0 <= k < |es| && f in Visited(es[k], kernelEnd);
      assert ReachesPast(es[k]);
    }
    if k :| 0 <= k < |es| && ReachesPast(es[k]) {
      var f := if StartFrame(es[k]) <= BITMAP_FRAMES then BITMAP_FRAMES else BITMAP_FRAMES + 1;
      assert f in Visited(es[k], kernelEnd);
      VisitedMember(es, kernelEnd, f);
    }
  }

  predicate ReachesPast(e: Entry) {
    e.kind == MEMORY_AVAILABLE && StartFrame(e) < EndFrame(e) && StartFrame(e) < MAX_FRAMES && BITMAP_FRAMES < EndFrame(e)
  }

  /** A machine with 256 MB does. */
  lemma BigMachineWritesPast(kernelEnd: nat)
    requires kernelEnd <= 0x400000
    ensures !InsideBitmap([Entry(0x100000, 0, 0xFF0_0000, 0, MEMORY_AVAILABLE)], kernelEnd)
  {
    var e := Entry(0x100000, 0, 0xFF0_0000, 0, MEMORY_AVAILABLE);
    assert ReachesPast([e][0]);
    PastBitmap([e], kernelEnd);
  }

  /** A range listed twice is counted twice. */
  lemma SharedFramesCountTwice(kernelEnd: nat)
    requires kernelEnd <= 0x400000
    ensures var e := Entry(0x400000, 0, 0x400000, 0, MEMORY_AVAILABLE);
            VisitCount([e, e], kernelEnd) > |AllVisited([e, e], kernelEnd)|
  {
    var e := Entry(0x400000, 0, 0x400000, 0, MEMORY_AVAILABLE);
    assert 1024 in Visited([e, e][0], kernelEnd) && 1024 in Visited([e, e][1], kernelEnd);
    TotalCountsOnce([e, e], kernelEnd);
  }

  lemma IntervalCount(s: set<nat>, lo: nat, hi: nat)
    requires lo <= hi && forall f :: f in s ==> lo <= f < hi
    ensures |s| <= hi - lo
    decreases hi - lo
  {
    if lo < hi {
      IntervalCount(s - {hi - 1}, lo, hi - 1);
    }
  }

  /** With 16 MB at 1 MB and 16 MB at 64 MB, no frame of the upper range is ever handed out. */
  lemma GapHidesMemory(kernelEnd: nat)
    requires kernelEnd <= 0x400000
    ensures var es := [Entry(0x100000, 0, 0x100_0000, 0, MEMORY_AVAILABLE), Entry(0x400_0000, 0, 0x100_0000, 0, MEMORY_AVAILABLE)];
            var s := Frames(AllVisited(es, kernelEnd), VisitCount(es, kernelEnd), 0);
            16384 in s.clear && !Reachable(s, 16384)
  {
    var low, high := Entry(0x100000, 0, 0x100_0000, 0, MEMORY_AVAILABLE), Entry(0x400_0000, 0, 0x100_0000, 0, MEMORY_AVAILABLE);
    var es := [low, high];
    IntervalCount(Visited(low, kernelEnd), 256, 4352);
    IntervalCount(Visited(high, kernelEnd), 16384, 20480);
    assert es[1..] == [high] && es[1..][1..] == [];
    assert VisitCount(es[1..], kernelEnd) == |Visited(high, kernelEnd)|;
    assert VisitCount(es, kernelEnd) == |Visited(low, kernelEnd)| + |Visited(high, kernelEnd)|;
    assert 16384 in Visited(es[1], kernelEnd);
    VisitedMember(es, kernelEnd, 16384);
    HandedOutWithinReach(Frames(AllVisited(es, kernelEnd), VisitCount(es, kernelEnd), 0), 16384);
  }

  // ---- From the BIOS to the bitmap ----

  /** BIOS entry `k` lies below 4 GB, and not in its last page. */
  predicate LowEntry(was: seq<nat>, k: nat)
    requires MMAP_DATA + 6 * k + 6 <= |was|
  {
    && was[MMAP_DATA + 6 * k + 1] == 0 && was[MMAP_DATA + 6 * k + 3] == 0
    && was[MMAP_DATA + 6 * k] + was[MMAP_DATA + 6 * k + 2] < TWO32 && was[MMAP_DATA + 6 * k] + 4095 < TWO32
  }

  /** BIOS entry `k` is usable memory and holds all of frame `f`. */
  predicate HoldsFrame(was: seq<nat>, k: nat, f: nat)
    requires MMAP_DATA + 6 * k + 6 <= |was|
  {
    && was[MMAP_DATA + 6 * k + 4] == 1
    && was[MMAP_DATA + 6 * k] <= 4096 * f && 4096 * f + 4096 <= was[MMAP_DATA + 6 * k] + was[MMAP_DATA + 6 * k + 2]
  }

  lemma VisitedFromBios(was: seq<nat>, k: nat, kernelEnd: nat, f: nat)
    requires MMAP_DATA + 6 * k + 6 <= |was| && LowEntry(was, k)
    ensures f in Visited(E820At(was, MMAP_DATA + 6 * k), kernelEnd) <==>
            HoldsFrame(was, k, f) && 0x100000 <= 4096 * f && kernelEnd <= 4096 * f && f < MAX_FRAMES
  {
    var base, length := was[MMAP_DATA + 6 * k], was[MMAP_DATA + 6 * k + 2];
    assert Wrap(base + 4095) == base + 4095 && Wrap(base + length) == base + length;
  }

  /**
   From the words that the BIOS left to the bitmap: of a table that lies below 4 GB, a frame is clear if and only if it is
   past the first megabyte and the kernel, in the bitmap's range, and wholly inside an entry of type 1.
   */
  lemma BitmapFromBios(was: seq<nat>, kernelEnd: nat, f: nat)
    requires HasE820(was) && forall k :: 0 <= k < was[MMAP_ENTRIES] ==> LowEntry(was, k)
    ensures f in AllVisited(E820Table(was), kernelEnd) <==>
            && 0x100000 <= 4096 * f && kernelEnd <= 4096 * f && f < MAX_FRAMES
            && exists k :: 0 <= k < was[MMAP_ENTRIES] && HoldsFrame(was, k, f)
  {
    var es := E820Table(was);
    VisitedMember(es, kernelEnd, f);
    forall k | 0 <= k < |es|
      ensures f in Visited(es[k], kernelEnd) <==>
              HoldsFrame(was, k, f) && 0x100000 <= 4096 * f && kernelEnd <= 4096 * f && f < MAX_FRAMES
    {
      VisitedFromBios(was, k, kernelEnd, f);
    }
  }

  /**
   The hand-over: `build_multiboot` writes the map, its byte address and its length, and `pmm_init` finds it there. The
   clear frames are those that the BIOS's own entries allow.
   */
  method InitFromE820(mem: array<nat>, bootName: nat, pmm: FrameAllocator, kernelEndVirtual: nat,
                      ghost es: seq<Entry>, ghost kernelEnd: nat)
    requires HasE820(mem[..]) && es == E820Table(mem[..]) && mem as object != pmm.bitmap
    requires pmm.bitmap.Length == BITMAP_BYTES && pmm.totalFrames == 0
    requires 0xC000_0000 <= kernelEndVirtual < TWO32 && kernelEnd == PageAlign(kernelEndVirtual - 0xC000_0000)
    requires InsideBitmap(es, kernelEnd) && VisitCount(es, kernelEnd) < TWO32
    modifies mem, pmm`totalFrames, pmm.bitmap
    ensures ClearFrames(pmm.bitmap[..]) == AllVisited(es, kernelEnd) && pmm.totalFrames == VisitCount(es, kernelEnd)
  {
    var address, length := HandOver(mem, bootName, es);
    PmmInit(pmm, mem, true, address, length, kernelEndVirtual, es);
  }

  lemma WholeTable(mem: seq<nat>, es: seq<Entry>, address: nat, length: nat)
    requires MBOOT_MMAP + 6 * |es| <= |mem| && mem[MBOOT_MMAP..MBOOT_MMAP + 6 * |es|] == Records(es)
    requires address == MBOOT_MMAP && length == 6 * |es|
    ensures Table(mem, address, address + length, es)
  {
    BuiltTable(mem, es, 0);
    assert es[0..] == es;
  }

  /** The boot half of the hand-over, as `pmm_init` reads it: the map flag is set, and address and length are in words. */
  method HandOver(mem: array<nat>, bootName: nat, ghost es: seq<Entry>) returns (address: nat, length: nat)
    requires HasE820(mem[..]) && es == E820Table(mem[..])
    modifies mem
    ensures mem[MBOOT_INFO] / 64 % 2 == 1 && 4 * address == mem[MBOOT_INFO + 12] && 4 * length == mem[MBOOT_INFO + 11]
    ensures Table(mem[..], address, address + length, es)
  {
    BuildMultiboot(mem, bootName);
    address, length := mem[MBOOT_INFO + 12] / 4, mem[MBOOT_INFO + 11] / 4;
    WholeTable(mem[..], es, address, length);
  }
}
