/** boot/stage2.asm: the file that `fat16_load_file` leaves is the one that `elf_load` places. */
module BootLoad {
  import opened Words
  import Fat16
  import Elf

  /** Memory once the chain has been loaded, and where its program headers are said to be. */
  datatype Kernel = Kernel(mem: seq<nat>, image: seq<nat>, first: nat, size: nat, n: nat)

  /** What `elf_load` makes of memory with `image` at 64 KB. */
  function KernelIn(mem: seq<nat>, image: seq<nat>): Kernel
    requires Elf.IsMemory(mem)
  {
    Kernel(mem, image, Wrap(Elf.Number(mem, Elf.ELF_BASE + 28, 4) + Elf.ELF_BASE),
           Elf.Number(mem, Elf.ELF_BASE + 42, 2), Elf.Number(mem, Elf.ELF_BASE + 44, 2))
  }

  /** Where the loader keeps its own things: its variables, its stack below 0x90000, and the screen. */
  predicate Scratch(x: nat) {
    x < 0x10000 || 0x8F000 <= x < 0x10_0000
  }

  /** The segments lie above the first megabyte. */
  ghost predicate AllHigh(hs: seq<Elf.Segment>) {
    forall i :: 0 <= i < |hs| && Elf.IsLoad(hs[i]) ==> 0x10_0000 <= hs[i].paddr
  }

  /** The program headers lie in a file that ends at `limit`, below the loader's stack; the segments are apart and outside it. */
  ghost predicate FitBelow(mem: seq<nat>, a: nat, size: nat, n: nat, limit: nat)
    requires Elf.IsMemory(mem)
  {
    limit <= 0x8F000 && Elf.HeadersInFile(a, size, n, limit) && Elf.AllFit(Elf.Headers(mem, a, size, n), limit)
  }

  /** The image ends below the loader's stack and holds the program headers; the segments are apart, outside it and high. */
  ghost predicate Loadable(k: Kernel) {
    && Elf.IsMemory(k.mem) && FitBelow(k.mem, k.first, k.size, k.n, 0x10000 + |k.image|)
    && AllHigh(Elf.Headers(k.mem, k.first, k.size, k.n))
  }

  /**
   `fat16_load_file`, then `elf_load`, in one memory; `kernel` is what lies between the two. The second runs whatever
   became of the first: after a read error the file is there only as far as its first `done` clusters.
   */
  method LoadKernel(fat: Fat16.Loader, elf: Elf.ElfLoader, first: nat, ghost chain: seq<nat>)
    returns (entered: bool, ghost kernel: Kernel, ghost done: nat)
    requires fat.Valid() && elf.Valid() && fat.mem == elf.mem && Fat16.IsChain(fat.mem[..0x10000], first, chain)
    requires 0x10000 + |Fat16.Image(fat.volume, chain)| <= 0x8F000
    modifies fat`cluster, fat`segment, elf`entry, elf.mem
    ensures Elf.IsMemory(kernel.mem) && kernel == KernelIn(kernel.mem, Fat16.Image(fat.volume, chain))
    ensures entered <==> Elf.HeaderOk(kernel.mem)
    ensures Fat16.ChainReadable(fat.volume, chain) ==> LoadedFrom(kernel, old(elf.mem[..]), Fat16.Image(fat.volume, chain))
    ensures !Fat16.ChainReadable(fat.volume, chain) ==> CutShort(fat.volume, chain, done)
    ensures done <= |chain| && Fat16.Loaded(old(elf.mem[..]), kernel.mem, fat.volume, chain, done)
    ensures entered ==> elf.mem[..] == Elf.PlaceAll(kernel.mem, kernel.first, kernel.size, kernel.n)
    ensures entered ==> elf.entry == Elf.Number(kernel.mem, Elf.ELF_BASE + 24, 4)
  {
    ghost var image := Fat16.Image(fat.volume, chain);
    var ok;
    ok, done := fat.LoadFile(first, chain);
    kernel := KernelIn(elf.mem[..], image);
    entered := PlaceKernel(elf, kernel, image);
  }

  /** The first `done` clusters of the chain can be read, and the next one cannot. */
  ghost predicate CutShort(v: Fat16.Volume, chain: seq<nat>, done: nat)
    requires Fat16.Proper(v)
  {
    && done < |chain| && Fat16.ChainReadable(v, chain[..done])
    && !Fat16.Readable(v.disk, Fat16.ClusterLba(v, chain[done]), v.spc)
  }

  /** `elf_load` on the image that lies in memory. */
  method PlaceKernel(elf: Elf.ElfLoader, ghost kernel: Kernel, ghost image: seq<nat>) returns (ok: bool)
    requires elf.Valid() && kernel == KernelIn(elf.mem[..], image)
    modifies elf`entry, elf.mem
    ensures ok <==> Elf.HeaderOk(kernel.mem)
    ensures ok ==> elf.mem[..] == Elf.PlaceAll(kernel.mem, kernel.first, kernel.size, kernel.n)
    ensures ok ==> elf.entry == Elf.Number(kernel.mem, Elf.ELF_BASE + 24, 4)
  {
    ok := elf.Load();
  }

  /** The kernel is `image`, put at 64 KB of memory `was`. */
  ghost predicate LoadedFrom(kernel: Kernel, was: seq<nat>, image: seq<nat>) {
    0x10000 + |image| <= |was| && kernel.image == image && kernel.mem == Fat16.Splice(was, 0x10000, image)
  }

  /**
   Byte `k` of segment `i` is byte `offset + k` of the image, which is the clusters in chain order, or zero past the
   segment's file part.
   */
  lemma KernelInPlace(kernel: Kernel, was: seq<nat>, image: seq<nat>, i: nat, s: Elf.Segment, k: nat)
    requires LoadedFrom(kernel, was, image) && Loadable(kernel) && i < kernel.n
    requires s == Elf.Headers(kernel.mem, kernel.first, kernel.size, kernel.n)[i] && Elf.IsLoad(s) && k < Elf.Extent(s)
    ensures s.paddr + k < 0x1_0000_0000 && (k < s.filesz ==> s.offset + k < |image|)
    ensures Elf.PlaceAll(kernel.mem, kernel.first, kernel.size, kernel.n)[s.paddr + k] ==
            if k < s.filesz then image[s.offset + k] else 0
  {
    Fat16.SpliceParts(was, 0x10000, image);
    Elf.SegmentLoaded(kernel.mem, image, kernel.first, kernel.size, kernel.n, i, s, k);
  }

  // ---- The loader's own writes ----

  /** Two memories that differ at most where the loader keeps its own things. */
  ghost predicate Alike(m: seq<nat>, mem: seq<nat>) {
    && Elf.IsMemory(m) && Elf.IsMemory(mem)
    && forall x :: 0 <= x < 0x1_0000_0000 && !Scratch(x) ==> m[x] == mem[x]
  }

  /**
   `elf_load` as the machine runs it: before each header and after the last the loader's pushes, variables and messages
   change scratch memory in any way. `ms[j]` is memory when header `j` has its turn, `end` memory at the end.
   */
  ghost predicate PlacedAmidst(m: seq<nat>, ms: seq<seq<nat>>, a: nat, size: nat, n: nat, end: seq<nat>)
    decreases n
  {
    if n == 0 then Alike(m, end)
    else ms != [] && Alike(m, ms[0]) && PlacedAmidst(Elf.Place(ms[0], a), ms[1..], Wrap(a + size), size, n - 1, end)
  }

  lemma PlaceAlike(m: seq<nat>, mem: seq<nat>, a: nat, limit: nat)
    requires Alike(m, mem) && limit <= 0x8F000 && 0x10000 <= a && a + 24 <= limit
    requires Elf.Fits(Elf.SegmentAt(mem, a), limit)
    ensures Alike(Elf.Place(m, a), Elf.Place(mem, a))
  {
    var s := Elf.SegmentAt(mem, a);
    assert Elf.SameFile(m, mem, limit);
    Elf.SegmentKept(m, mem, limit, a);
    forall x | 0 <= x < 0x1_0000_0000 && !Scratch(x) ensures Elf.Place(m, a)[x] == Elf.Place(mem, a)[x] {
      Elf.PlaceAt(m, a, limit, x);
      Elf.PlaceAt(mem, a, limit, x);
      if Elf.Covers(s, x) && x - s.paddr < s.filesz {
        assert Wrap(0x10000 + s.offset + (x - s.paddr)) == 0x10000 + s.offset + (x - s.paddr);
      }
    }
  }

  lemma AlikeVia(m: seq<nat>, mem: seq<nat>, next: seq<nat>)
    requires Alike(m, mem) && Alike(m, next)
    ensures Alike(next, mem)
  {
  }

  lemma FirstFits(hs: seq<Elf.Segment>, rest: seq<Elf.Segment>, s: Elf.Segment, limit: nat)
    requires hs == [s] + rest && Elf.AllFit(hs, limit)
    ensures Elf.Fits(s, limit) && Elf.AllFit(rest, limit)
  {
    assert hs[1..] == rest;
    Elf.AllFitTail(hs, limit);
  }

  /** Placing one segment leaves the headers after it as they are. */
  lemma RestKept(mem: seq<nat>, a: nat, size: nat, n: nat, limit: nat)
    requires Elf.IsMemory(mem) && limit <= 0x8F000 && 0 < n && Elf.HeadersInFile(a, size, n, limit)
    requires Elf.Fits(Elf.SegmentAt(mem, a), limit)
    ensures Elf.Headers(Elf.Place(mem, a), Wrap(a + size), size, n - 1) == Elf.Headers(mem, Wrap(a + size), size, n - 1)
  {
    Elf.PlaceKeepsFile(mem, a, limit);
    Elf.HeadersKept(Elf.Place(mem, a), mem, Wrap(a + size), size, n - 1, limit);
  }

  /** The loader's own writes leave no trace outside its scratch memory. */
  lemma {:induction false} AmidstAlike(m: seq<nat>, mem: seq<nat>, ms: seq<seq<nat>>, a: nat, size: nat, n: nat, limit: nat,
                                       end: seq<nat>)
    requires Alike(m, mem) && limit <= 0x8F000 && PlacedAmidst(m, ms, a, size, n, end)
    requires Elf.HeadersInFile(a, size, n, limit) && Elf.AllFit(Elf.Headers(mem, a, size, n), limit)
    ensures Alike(end, Elf.PlaceAll(mem, a, size, n))
    decreases n
  {
    if n == 0 {
      AlikeVia(m, mem, end);
    } else {
      FirstFits(Elf.Headers(mem, a, size, n), Elf.Headers(mem, Wrap(a + size), size, n - 1), Elf.SegmentAt(mem, a), limit);
      RestKept(mem, a, size, n, limit);
      AlikeVia(m, mem, ms[0]);
      PlaceAlike(ms[0], mem, a, limit);
      AmidstAlike(Elf.Place(ms[0], a), Elf.Place(mem, a), ms[1..], Wrap(a + size), size, n - 1, limit, end);
    }
  }

  /** So the segments hold the file's bytes whatever the loader wrote to its stack, its variables and the screen meanwhile. */
  lemma KernelInPlaceAmidst(kernel: Kernel, was: seq<nat>, image: seq<nat>, ms: seq<seq<nat>>, end: seq<nat>, i: nat,
                            s: Elf.Segment, k: nat)
    requires LoadedFrom(kernel, was, image) && Loadable(kernel) && i < kernel.n
    requires PlacedAmidst(kernel.mem, ms, kernel.first, kernel.size, kernel.n, end)
    requires s == Elf.Headers(kernel.mem, kernel.first, kernel.size, kernel.n)[i] && Elf.IsLoad(s) && k < Elf.Extent(s)
    ensures |end| == 0x1_0000_0000 && s.paddr + k < |end| && (k < s.filesz ==> s.offset + k < |image|)
    ensures end[s.paddr + k] == if k < s.filesz then image[s.offset + k] else 0
  {
    KernelAlike(kernel, ms, end);
    KernelInPlace(kernel, was, image, i, s, k);
    IsHigh(kernel, i, s);
    AlikeAt(end, Elf.PlaceAll(kernel.mem, kernel.first, kernel.size, kernel.n), s.paddr + k);
  }

  lemma KernelAlike(kernel: Kernel, ms: seq<seq<nat>>, end: seq<nat>)
    requires Loadable(kernel) && PlacedAmidst(kernel.mem, ms, kernel.first, kernel.size, kernel.n, end)
    ensures Alike(end, Elf.PlaceAll(kernel.mem, kernel.first, kernel.size, kernel.n))
  {
    AmidstFrom(kernel.mem, ms, kernel.first, kernel.size, kernel.n, 0x10000 + |kernel.image|, end);
  }

  lemma AmidstFrom(mem: seq<nat>, ms: seq<seq<nat>>, a: nat, size: nat, n: nat, limit: nat, end: seq<nat>)
    requires Elf.IsMemory(mem) && FitBelow(mem, a, size, n, limit) && PlacedAmidst(mem, ms, a, size, n, end)
    ensures Alike(end, Elf.PlaceAll(mem, a, size, n))
  {
    AmidstAlike(mem, mem, ms, a, size, n, limit, end);
  }

  lemma IsHigh(kernel: Kernel, i: nat, s: Elf.Segment)
    requires Loadable(kernel) && i < kernel.n && Elf.IsLoad(s)
    requires s == Elf.Headers(kernel.mem, kernel.first, kernel.size, kernel.n)[i]
    ensures 0x10_0000 <= s.paddr
  {
  }

  lemma AlikeAt(m: seq<nat>, mem: seq<nat>, x: nat)
    requires Alike(m, mem) && 0x10_0000 <= x < 0x1_0000_0000
    ensures m[x] == mem[x]
  {
  }

  // ---- From the bytes of the file ----

  lemma ImageAt64K(kernel: Kernel, was: seq<nat>, image: seq<nat>)
    requires LoadedFrom(kernel, was, image) && |was| == 0x1_0000_0000
    ensures Elf.FileAt64K(kernel.mem, image)
  {
    Fat16.SpliceParts(was, 0x10000, image);
  }

  /** Entry point and program header table, from the ELF header of the image. */
  lemma ImageHeader(kernel: Kernel, was: seq<nat>, image: seq<nat>)
    requires LoadedFrom(kernel, was, image) && |was| == 0x1_0000_0000 && 52 <= |image| && kernel == KernelIn(kernel.mem, image)
    ensures Elf.Number(kernel.mem, Elf.ELF_BASE + 24, 4) == Elf.Word32(image, 24)
    ensures kernel.first == Wrap(0x10000 + Elf.Word32(image, 28))
    ensures kernel.size == Elf.Word16(image, 42) && kernel.n == Elf.Word16(image, 44)
  {
    ImageAt64K(kernel, was, image);
    Elf.NumberIsWord32(kernel.mem, image, 24);
    Elf.NumberIsWord32(kernel.mem, image, 28);
    Elf.NumberIsWord16(kernel.mem, image, 42);
    Elf.NumberIsWord16(kernel.mem, image, 44);
  }

  lemma TableFollows(kernel: Kernel, image: seq<nat>, first: nat, i: nat, h: nat)
    requires Elf.FileAt64K(kernel.mem, image) && i < kernel.n && h + 24 <= |image|
    requires kernel.first == Wrap(0x10000 + first) && h == Elf.Nth(first, kernel.size, i)
    ensures Elf.Headers(kernel.mem, kernel.first, kernel.size, kernel.n)[i] == Elf.SegmentAt(kernel.mem, 0x10000 + h)
  {
    assert Wrap(0x10000 + first) == 0x10000 + first;
    Elf.NthShifts(first, kernel.size, i, 0x10000);
    Elf.HeaderAt(kernel.mem, kernel.first, kernel.size, kernel.n, i, 0x10000 + h, Elf.SegmentAt(kernel.mem, 0x10000 + h));
  }

  /** The program header at offset `h` of the image: its fields, and that it is number `i` of those the loader reads. */
  lemma ImageSegment(kernel: Kernel, was: seq<nat>, image: seq<nat>, i: nat, h: nat, s: Elf.Segment)
    requires LoadedFrom(kernel, was, image) && |was| == 0x1_0000_0000 && 52 <= |image| && kernel == KernelIn(kernel.mem, image)
    requires i < Elf.Word16(image, 44) && h == Elf.Nth(Elf.Word32(image, 28), Elf.Word16(image, 42), i) && h + 24 <= |image|
    requires s.kind == Elf.Word32(image, h) && s.offset == Elf.Word32(image, h + 4) && s.paddr == Elf.Word32(image, h + 12)
    requires s.filesz == Elf.Word32(image, h + 16) && s.memsz == Elf.Word32(image, h + 20)
    ensures i < kernel.n && Elf.Headers(kernel.mem, kernel.first, kernel.size, kernel.n)[i] == s
  {
    ImageHeader(kernel, was, image);
    ImageAt64K(kernel, was, image);
    TableFollows(kernel, image, Elf.Word32(image, 28), i, h);
    Elf.HeaderFields(kernel.mem, image, h);
  }

  /**
   The kernel in memory, from the bytes of its file alone: a program header at offset `h` with type 1 puts the bytes from
   the offset at `h + 4` on to the physical address at `h + 12`, as many as stand at `h + 16`, and zeros after them up to
   the size at `h + 20`; whatever the loader writes to its own memory meanwhile.
   */
  lemma KernelFromFile(kernel: Kernel, was: seq<nat>, image: seq<nat>, ms: seq<seq<nat>>, end: seq<nat>, i: nat, h: nat,
                       s: Elf.Segment, k: nat)
    requires LoadedFrom(kernel, was, image) && |was| == 0x1_0000_0000 && 52 <= |image| && kernel == KernelIn(kernel.mem, image)
    requires Loadable(kernel) && PlacedAmidst(kernel.mem, ms, kernel.first, kernel.size, kernel.n, end)
    requires i < Elf.Word16(image, 44) && h == Elf.Nth(Elf.Word32(image, 28), Elf.Word16(image, 42), i) && h + 24 <= |image|
    requires s.kind == Elf.Word32(image, h) == 1 && s.offset == Elf.Word32(image, h + 4) && s.paddr == Elf.Word32(image, h + 12)
    requires s.filesz == Elf.Word32(image, h + 16) && s.memsz == Elf.Word32(image, h + 20) && (k < s.filesz || k < s.memsz)
    ensures |end| == 0x1_0000_0000 && s.paddr + k < |end| && (k < s.filesz ==> s.offset + k < |image|)
    ensures end[s.paddr + k] == if k < s.filesz then image[s.offset + k] else 0
  {
    ImageSegment(kernel, was, image, i, h, s);
    KernelInPlaceAmidst(kernel, was, image, ms, end, i, s, k);
  }

  // ---- A file cut short ----

  /** A sector that begins with an ELF header that passes the checks. */
  function HeaderSector(): seq<nat> {
    seq(512, i => if i == 0 then 0x7F else if i == 1 then 0x45 else if i == 2 then 0x4C else if i == 3 then 0x46
                  else if i == 4 || i == 5 then 1 else if i == 16 then 2 else if i == 18 then 3 else 0)
  }

  /** A FAT in which cluster 2 is followed by cluster 3, the last. */
  function TwoClusters(): (low: seq<nat>)
    ensures |low| == 0x10000
  {
    seq(0x10000, i => if i == 0x1004 then 3 else if i == 0x1006 || i == 0x1007 then 0xFF else 0)
  }

  /** A header in the first cluster is enough to enter a kernel whose second cluster could not be read. */
  lemma EnteredCutShort(was: seq<nat>, now: seq<nat>)
    requires Elf.IsMemory(was) && Elf.IsMemory(now)
    ensures Fat16.IsChain(TwoClusters(), 2, [2, 3])
    ensures var v := Fat16.Volume(map[100 := HeaderSector()], 1, 100);
            && Fat16.Proper(v) && |Fat16.Image(v, [2, 3])| == 1024 && CutShort(v, [2, 3], 1)
            && (Fat16.Loaded(was, now, v, [2, 3], 1) ==> Elf.HeaderOk(now))
  {
    var v := Fat16.Volume(map[100 := HeaderSector()], 1, 100);
    var low := TwoClusters();
    assert Fat16.Entry(low, 2) == 3 && Fat16.Entry(low, 3) == 0xFFFF;
    Fat16.ClusterPlace(v, 2);
    Fat16.ClusterPlace(v, 3);
    assert [2, 3][..1] == [2] && [2][..0] == [];
    assert Fat16.SectorBytes(v.disk, 100, 1) == HeaderSector();
    assert Fat16.Image(v, [2]) == HeaderSector();
    Fat16.SectorBytesLength(v.disk, 101, 1);
    if Fat16.Loaded(was, now, v, [2, 3], 1) {
      HeaderBytes(now);
    }
  }

  lemma HeaderBytes(mem: seq<nat>)
    requires Elf.IsMemory(mem) && mem[0x10000..0x10200] == HeaderSector()
    ensures Elf.HeaderOk(mem)
  {
    var s := mem[0x10000..0x10200];
    assert mem[0x10000] == s[0] && mem[0x10001] == s[1] && mem[0x10002] == s[2] && mem[0x10003] == s[3];
    assert mem[0x10004] == s[4] && mem[0x10005] == s[5];
    assert mem[0x10010] == s[16] && mem[0x10011] == s[17] && mem[0x10012] == s[18] && mem[0x10013] == s[19];
  }
}
