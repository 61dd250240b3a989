/** boot/stage2.asm, elf_load: placing the segments of an ELF file (System V gABI, chapter 5, "Program Header"). */
module Elf {
  import opened Words

  const ELF_BASE := 0x10000
  const PT_LOAD := 1

  /** The whole 32-bit physical address space, byte by byte. */
  predicate IsMemory(mem: seq<nat>) {
    |mem| == 0x1_0000_0000
  }

  /** The little-endian number in the `n` bytes at `a`. */
  function Number(mem: seq<nat>, a: nat, n: nat): nat
    requires IsMemory(mem)
    decreases n
  {
    if n == 0 then 0 else mem[Wrap(a)] + 0x100 * Number(mem, a + 1, n - 1)
  }

  /** The checks of the ELF header: magic, 32-bit, little-endian, executable, 386. */
  predicate HeaderOk(mem: seq<nat>)
    requires IsMemory(mem)
  {
    && Number(mem, ELF_BASE, 4) == 0x464C457F && Number(mem, ELF_BASE + 4, 1) == 1 && Number(mem, ELF_BASE + 5, 1) == 1
    && Number(mem, ELF_BASE + 16, 2) == 2 && Number(mem, ELF_BASE + 18, 2) == 3
  }

  datatype Segment = Segment(kind: nat, offset: nat, paddr: nat, filesz: nat, memsz: nat)

  /** The fields of the program header at `a` that the loader reads. */
  function SegmentAt(mem: seq<nat>, a: nat): Segment
    requires IsMemory(mem)
  {
    Segment(Number(mem, a, 4), Number(mem, a + 4, 4), Number(mem, a + 12, 4), Number(mem, a + 16, 4), Number(mem, a + 20, 4))
  }

  // ---- What the instructions do ----

  /** `rep movsb`: `n` bytes, lowest first, each read after the ones before it are written. */
  function Copy(mem: seq<nat>, src: nat, dst: nat, n: nat): (r: seq<nat>)
    requires IsMemory(mem)
    ensures IsMemory(r)
  {
    if n == 0 then mem
    else
      var m := Copy(mem, src, dst, n - 1);
      m[Wrap(dst + n - 1) := m[Wrap(src + n - 1)]]
  }

  /** `rep stosb` of zero. */
  function Clear(mem: seq<nat>, dst: nat, n: nat): (r: seq<nat>)
    requires IsMemory(mem)
    ensures IsMemory(r)
  {
    if n == 0 then mem else Clear(mem, dst, n - 1)[Wrap(dst + n - 1) := 0]
  }

  /** The zero-fill after a segment's last file byte; the sizes are read again after the copy. */
  function Fill(mem: seq<nat>, a: nat, end: nat): (r: seq<nat>)
    requires IsMemory(mem)
    ensures IsMemory(r)
  {
    var s := SegmentAt(mem, a);
    if s.memsz > s.filesz then Clear(mem, end, s.memsz - s.filesz) else mem
  }

  /** The copy of a segment's file part. */
  function CopyFilePart(mem: seq<nat>, s: Segment): (r: seq<nat>)
    requires IsMemory(mem)
    ensures IsMemory(r)
  {
    Copy(mem, Wrap(ELF_BASE + s.offset), s.paddr, s.filesz)
  }

  /** One program header. */
  function Place(mem: seq<nat>, a: nat): (r: seq<nat>)
    requires IsMemory(mem)
    ensures IsMemory(r)
  {
    var s := SegmentAt(mem, a);
    if s.kind != PT_LOAD then mem
    else Fill(CopyFilePart(mem, s), a, Wrap(s.paddr + s.filesz))
  }

  /** `n` program headers from `a` on, `size` bytes apart. */
  function PlaceAll(mem: seq<nat>, a: nat, size: nat, n: nat): (r: seq<nat>)
    requires IsMemory(mem)
    ensures IsMemory(r)
    decreases n
  {
    if n == 0 then mem else PlaceAll(Place(mem, a), Wrap(a + size), size, n - 1)
  }

  /** `n` more headers from `a` on will leave memory as `target`. */
  ghost predicate LeadsTo(mem: seq<nat>, a: nat, size: nat, n: nat, target: seq<nat>)
    requires IsMemory(mem)
    decreases n
  {
    if n == 0 then mem == target else LeadsTo(Place(mem, a), Wrap(a + size), size, n - 1, target)
  }

  lemma {:induction false} PlaceAllLeads(mem: seq<nat>, a: nat, size: nat, n: nat, target: seq<nat>)
    requires IsMemory(mem) && target == PlaceAll(mem, a, size, n)
    ensures LeadsTo(mem, a, size, n, target)
    decreases n
  {
    if n > 0 {
      PlaceAllLeads(Place(mem, a), Wrap(a + size), size, n - 1, target);
    }
  }

  class ElfLoader {
    const mem: array<nat>
    var entry: nat

    ghost predicate Valid()
      reads this
    {
      mem.Length == 0x1_0000_0000
    }

    method Read(a: nat, n: nat) returns (r: nat)
      requires Valid()
      ensures r == Number(mem[..], a, n)
      decreases n
    {
      if n == 0 {
        return 0;
      }
      var rest := Read(a + 1, n - 1);
      r := mem[Wrap(a)] + 0x100 * rest;
    }

    method CheckHeader() returns (ok: bool)
      requires Valid()
      ensures ok == HeaderOk(mem[..])
    {
      var magic := Read(ELF_BASE, 4);
      var width := Read(ELF_BASE + 4, 1);
      var order := Read(ELF_BASE + 5, 1);
      var kind := Read(ELF_BASE + 16, 2);
      var machine := Read(ELF_BASE + 18, 2);
      ok := magic == 0x464C457F && width == 1 && order == 1 && kind == 2 && machine == 3;
    }

    method MoveBytes(src: nat, dst: nat, n: nat) returns (end: nat)
      requires Valid()
      modifies mem
      ensures mem[..] == Copy(old(mem[..]), src, dst, n) && end == Wrap(dst + n)
    {
      var i := 0;
      while i < n
        invariant 0 <= i <= n && mem[..] == Copy(old(mem[..]), src, dst, i)
      {
        mem[Wrap(dst + i)] := mem[Wrap(src + i)];
        i := i + 1;
      }
      end := Wrap(dst + n);
    }

    method ClearBytes(dst: nat, n: nat)
      requires Valid()
      modifies mem
      ensures mem[..] == Clear(old(mem[..]), dst, n)
    {
      var i := 0;
      while i < n
        invariant 0 <= i <= n && mem[..] == Clear(old(mem[..]), dst, i)
      {
        mem[Wrap(dst + i)] := 0;
        i := i + 1;
      }
    }

    method ReadSegment(a: nat) returns (s: Segment)
      requires Valid()
      ensures s == SegmentAt(mem[..], a)
    {
      var kind := Read(a, 4);
      var offset := Read(a + 4, 4);
      var paddr := Read(a + 12, 4);
      var filesz := Read(a + 16, 4);
      var memsz := Read(a + 20, 4);
      s := Segment(kind, offset, paddr, filesz, memsz);
    }

    method FillSegment(a: nat, end: nat)
      requires Valid()
      modifies mem
      ensures mem[..] == Fill(old(mem[..]), a, end)
    {
      var s := ReadSegment(a);
      if s.memsz > s.filesz {
        ClearBytes(end, s.memsz - s.filesz);
      }
    }

    method MoveFilePart(s: Segment) returns (end: nat)
      requires Valid()
      modifies mem
      ensures mem[..] == CopyFilePart(old(mem[..]), s) && end == Wrap(s.paddr + s.filesz)
    {
      end := MoveBytes(Wrap(ELF_BASE + s.offset), s.paddr, s.filesz);
    }

    method PlaceSegment(a: nat)
      requires Valid()
      modifies mem
      ensures mem[..] == Place(old(mem[..]), a)
    {
      var s := ReadSegment(a);
      if s.kind == PT_LOAD {
        var end := MoveFilePart(s);
        FillSegment(a, end);
      }
    }

    /** One round of the loop: the header at `a`, then the next one. */
    method PlaceNext(a: nat, size: nat, left: nat, ghost target: seq<nat>) returns (next: nat, rest: nat)
      requires Valid() && left > 0 && LeadsTo(mem[..], a, size, left, target)
      modifies mem
      ensures rest == left - 1 && LeadsTo(mem[..], next, size, rest, target)
    {
      PlaceSegment(a);
      next, rest := Wrap(a + size), left - 1;
    }

    /** The loop over the program headers. */
    method PlaceSegments(first: nat, size: nat, n: nat)
      requires Valid()
      modifies mem
      ensures mem[..] == PlaceAll(old(mem[..]), first, size, n)
    {
      var a, left := first, n;
      ghost var target := PlaceAll(mem[..], first, size, n);
      PlaceAllLeads(mem[..], first, size, n, target);
      while left > 0
        invariant LeadsTo(mem[..], a, size, left, target)
        decreases left
      {
        a, left := PlaceNext(a, size, left, target);
      }
    }

    /** `elf_load`; a file that fails the header checks halts the machine, which reads as false here. */
    method Load() returns (ok: bool)
      requires Valid()
      modifies this`entry, mem
      ensures ok == HeaderOk(old(mem[..]))
      ensures !ok ==> mem[..] == old(mem[..]) && entry == old(entry)
      ensures ok ==> entry == Number(old(mem[..]), ELF_BASE + 24, 4)
      ensures ok ==> mem[..] == PlaceAll(old(mem[..]), Wrap(Number(old(mem[..]), ELF_BASE + 28, 4) + ELF_BASE),
                                         Number(old(mem[..]), ELF_BASE + 42, 2), Number(old(mem[..]), ELF_BASE + 44, 2))
    {
      ok := CheckHeader();
      if !ok {
        return;
      }
      entry := Read(ELF_BASE + 24, 4);
      var phoff := Read(ELF_BASE + 28, 4);
      var size := Read(ELF_BASE + 42, 2);
      var n := Read(ELF_BASE + 44, 2);
      PlaceSegments(Wrap(phoff + ELF_BASE), size, n);
    }
  }

  // ---- What the loaded memory holds ----

  predicate IsLoad(s: Segment) {
    s.kind == PT_LOAD
  }

  /** How far a segment reaches: a file part longer than the memory size is copied whole. */
  function Extent(s: Segment): nat {
    if s.memsz > s.filesz then s.memsz else s.filesz
  }

  predicate Covers(s: Segment, x: nat) {
    IsLoad(s) && s.paddr <= x < s.paddr + Extent(s)
  }

  /** The file lies at [64 KB, limit); the segment takes its bytes from there and goes somewhere else. */
  predicate Fits(s: Segment, limit: nat) {
    IsLoad(s) ==>
      && s.paddr + Extent(s) <= 0x1_0000_0000
      && (s.filesz == 0 || 0x10000 + s.offset + s.filesz <= limit <= 0x1_0000_0000)
      && (s.paddr + Extent(s) <= 0x10000 || limit <= s.paddr)
  }

  predicate Apart(s: Segment, t: Segment) {
    IsLoad(s) && IsLoad(t) ==> s.paddr + Extent(s) <= t.paddr || t.paddr + Extent(t) <= s.paddr
  }

  /** The byte a segment puts at `x`: its file byte, or zero past the file part. */
  function SegmentByte(mem: seq<nat>, s: Segment, x: nat): nat
    requires IsMemory(mem) && x < 0x1_0000_0000
  {
    if !Covers(s, x) then mem[x]
    else if x - s.paddr < s.filesz then mem[Wrap(0x10000 + s.offset + (x - s.paddr))]
    else 0
  }

  lemma {:induction false} CopyAt(mem: seq<nat>, src: nat, dst: nat, n: nat, x: nat)
    requires IsMemory(mem) && src + n <= 0x1_0000_0000 && dst + n <= 0x1_0000_0000 && x < |mem|
    requires src + n <= dst || dst + n <= src
    ensures Copy(mem, src, dst, n)[x] == if dst <= x < dst + n then mem[src + (x - dst)] else mem[x]
  {
    if n > 0 {
      CopyAt(mem, src, dst, n - 1, x);
      CopyAt(mem, src, dst, n - 1, src + n - 1);
      assert Wrap(dst + n - 1) == dst + n - 1 && Wrap(src + n - 1) == src + n - 1;
    }
  }

  lemma {:induction false} ClearAt(mem: seq<nat>, dst: nat, n: nat, x: nat)
    requires IsMemory(mem) && dst + n <= 0x1_0000_0000 && x < |mem|
    ensures Clear(mem, dst, n)[x] == if dst <= x < dst + n then 0 else mem[x]
  {
    if n > 0 {
      ClearAt(mem, dst, n - 1, x);
      assert Wrap(dst + n - 1) == dst + n - 1;
    }
  }

  /** The two memories agree on the file. */
  ghost predicate SameFile(m: seq<nat>, mem: seq<nat>, limit: nat)
    requires IsMemory(m) && IsMemory(mem) && limit <= 0x1_0000_0000
  {
    forall x :: 0x10000 <= x < limit ==> m[x] == mem[x]
  }

  lemma {:induction false} NumberKept(m: seq<nat>, mem: seq<nat>, limit: nat, a: nat, n: nat)
    requires IsMemory(m) && IsMemory(mem) && limit <= 0x1_0000_0000 && SameFile(m, mem, limit)
    requires 0x10000 <= a && a + n <= limit
    ensures Number(m, a, n) == Number(mem, a, n)
    decreases n
  {
    if n > 0 {
      NumberKept(m, mem, limit, a + 1, n - 1);
      assert Wrap(a) == a;
    }
  }

  lemma SegmentKept(m: seq<nat>, mem: seq<nat>, limit: nat, a: nat)
    requires IsMemory(m) && IsMemory(mem) && limit <= 0x1_0000_0000 && SameFile(m, mem, limit)
    requires 0x10000 <= a && a + 24 <= limit
    ensures SegmentAt(m, a) == SegmentAt(mem, a)
  {
    NumberKept(m, mem, limit, a, 4);
    NumberKept(m, mem, limit, a + 4, 4);
    NumberKept(m, mem, limit, a + 12, 4);
    NumberKept(m, mem, limit, a + 16, 4);
    NumberKept(m, mem, limit, a + 20, 4);
  }

  /** The copy puts the file part in place. */
  lemma CopyPlaces(mem: seq<nat>, s: Segment, limit: nat, x: nat)
    requires IsMemory(mem) && limit <= 0x1_0000_0000 && IsLoad(s) && Fits(s, limit) && x < |mem|
    ensures CopyFilePart(mem, s)[x] ==
            if s.paddr <= x < s.paddr + s.filesz then SegmentByte(mem, s, x) else mem[x]
  {
    if s.filesz > 0 {
      assert Wrap(ELF_BASE + s.offset) == ELF_BASE + s.offset;
      CopyAt(mem, ELF_BASE + s.offset, s.paddr, s.filesz, x);
      if s.paddr <= x < s.paddr + s.filesz {
        assert Wrap(0x10000 + s.offset + (x - s.paddr)) == 0x10000 + s.offset + (x - s.paddr);
      }
    }
  }

  /** The zero-fill puts the rest in place. */
  lemma FillPlaces(mem: seq<nat>, m: seq<nat>, a: nat, s: Segment, limit: nat, x: nat)
    requires IsMemory(mem) && IsMemory(m) && IsLoad(s) && Fits(s, limit) && x < |mem| && SegmentAt(m, a) == s
    requires m[x] == if s.paddr <= x < s.paddr + s.filesz then SegmentByte(mem, s, x) else mem[x]
    ensures Fill(m, a, Wrap(s.paddr + s.filesz))[x] == SegmentByte(mem, s, x)
  {
    if s.memsz > s.filesz {
      assert Wrap(s.paddr + s.filesz) == s.paddr + s.filesz;
      ClearAt(m, s.paddr + s.filesz, s.memsz - s.filesz, x);
    }
  }

  lemma CopyKeepsFile(mem: seq<nat>, s: Segment, limit: nat)
    requires IsMemory(mem) && limit <= 0x1_0000_0000 && IsLoad(s) && Fits(s, limit)
    ensures SameFile(CopyFilePart(mem, s), mem, limit)
  {
    forall x | 0x10000 <= x < limit ensures CopyFilePart(mem, s)[x] == mem[x] {
      CopyPlaces(mem, s, limit, x);
    }
  }

  /** One header changes exactly the bytes of its segment. */
  lemma PlaceAt(mem: seq<nat>, a: nat, limit: nat, x: nat)
    requires IsMemory(mem) && limit <= 0x1_0000_0000 && 0x10000 <= a && a + 24 <= limit && x < |mem|
    requires Fits(SegmentAt(mem, a), limit)
    ensures Place(mem, a)[x] == SegmentByte(mem, SegmentAt(mem, a), x)
  {
    var s := SegmentAt(mem, a);
    if IsLoad(s) {
      var m := CopyFilePart(mem, s);
      CopyKeepsFile(mem, s, limit);
      CopyPlaces(mem, s, limit, x);
      SegmentKept(m, mem, limit, a);
      FillPlaces(mem, m, a, s, limit, x);
    }
  }

  lemma PlaceKeepsFile(mem: seq<nat>, a: nat, limit: nat)
    requires IsMemory(mem) && limit <= 0x1_0000_0000 && 0x10000 <= a && a + 24 <= limit
    requires Fits(SegmentAt(mem, a), limit)
    ensures SameFile(Place(mem, a), mem, limit)
  {
    forall x | 0x10000 <= x < limit ensures Place(mem, a)[x] == mem[x] {
      PlaceAt(mem, a, limit, x);
    }
  }

  /** The program headers as the file has them. */
  function Headers(mem: seq<nat>, a: nat, size: nat, n: nat): (hs: seq<Segment>)
    requires IsMemory(mem)
    ensures |hs| == n
    decreases n
  {
    if n == 0 then [] else [SegmentAt(mem, a)] + Headers(mem, Wrap(a + size), size, n - 1)
  }

  /** Every header lies in the file. */
  predicate HeadersInFile(a: nat, size: nat, n: nat, limit: nat)
    decreases n
  {
    n == 0 || (0x10000 <= a && a + 24 <= limit && HeadersInFile(Wrap(a + size), size, n - 1, limit))
  }

  lemma {:induction false} HeadersKept(m: seq<nat>, mem: seq<nat>, a: nat, size: nat, n: nat, limit: nat)
    requires IsMemory(m) && IsMemory(mem) && limit <= 0x1_0000_0000 && SameFile(m, mem, limit)
    requires HeadersInFile(a, size, n, limit)
    ensures Headers(m, a, size, n) == Headers(mem, a, size, n)
    decreases n
  {
    if n > 0 {
      SegmentKept(m, mem, limit, a);
      HeadersKept(m, mem, Wrap(a + size), size, n - 1, limit);
    }
  }

  ghost predicate AllFit(hs: seq<Segment>, limit: nat) {
    && (forall i :: 0 <= i < |hs| ==> Fits(hs[i], limit))
    && (forall i, j :: 0 <= i < j < |hs| ==> Apart(hs[i], hs[j]))
  }

  lemma AllFitTail(hs: seq<Segment>, limit: nat)
    requires hs != [] && AllFit(hs, limit)
    ensures Fits(hs[0], limit) && AllFit(hs[1..], limit) && forall i :: 0 <= i < |hs[1..]| ==> Apart(hs[0], hs[1..][i])
  {
  }

  /** What every byte of memory is to hold: the file byte or zero of the segment that covers it, or what it held. */
  function Expected(mem: seq<nat>, hs: seq<Segment>, x: nat): nat
    requires IsMemory(mem) && x < 0x1_0000_0000
  {
    if hs == [] then mem[x] else if Covers(hs[0], x) then SegmentByte(mem, hs[0], x) else Expected(mem, hs[1..], x)
  }

  /** For the later headers, memory with the first segment placed is as good as the memory before it. */
  lemma {:induction false} ExpectedAfter(mem: seq<nat>, m: seq<nat>, s: Segment, hs: seq<Segment>, limit: nat, x: nat)
    requires IsMemory(mem) && IsMemory(m) && limit <= 0x1_0000_0000 && x < 0x1_0000_0000
    requires SameFile(m, mem, limit) && m[x] == SegmentByte(mem, s, x)
    requires AllFit(hs, limit) && forall i :: 0 <= i < |hs| ==> Apart(s, hs[i])
    ensures Expected(m, hs, x) == if Covers(s, x) then SegmentByte(mem, s, x) else Expected(mem, hs, x)
  {
    if hs != [] {
      if Covers(hs[0], x) {
        assert Fits(hs[0], limit) && Apart(s, hs[0]) && !Covers(s, x);
        if x - hs[0].paddr < hs[0].filesz {
          assert Wrap(0x10000 + hs[0].offset + (x - hs[0].paddr)) == 0x10000 + hs[0].offset + (x - hs[0].paddr);
        }
      } else {
        ExpectedAfter(mem, m, s, hs[1..], limit, x);
      }
    }
  }

  /** `elf_load` on a file whose segments fit: every byte of memory is what the headers say. */
  lemma {:induction false} PlacesExpected(mem: seq<nat>, a: nat, size: nat, n: nat, limit: nat, x: nat)
    requires IsMemory(mem) && limit <= 0x1_0000_0000 && x < 0x1_0000_0000
    requires HeadersInFile(a, size, n, limit) && AllFit(Headers(mem, a, size, n), limit)
    ensures PlaceAll(mem, a, size, n)[x] == Expected(mem, Headers(mem, a, size, n), x)
    decreases n
  {
    if n > 0 {
      var hs, m := Headers(mem, a, size, n), Place(mem, a);
      var rest := Headers(mem, Wrap(a + size), size, n - 1);
      assert hs[0] == SegmentAt(mem, a) && hs[1..] == rest;
      AllFitTail(hs, limit);
      PlaceAt(mem, a, limit, x);
      PlaceKeepsFile(mem, a, limit);
      HeadersKept(m, mem, Wrap(a + size), size, n - 1, limit);
      PlacesExpected(m, Wrap(a + size), size, n - 1, limit, x);
      ExpectedAfter(mem, m, hs[0], rest, limit, x);
    }
  }

  lemma {:induction false} ExpectedCovered(mem: seq<nat>, hs: seq<Segment>, limit: nat, i: nat, x: nat)
    requires IsMemory(mem) && AllFit(hs, limit) && i < |hs| && Covers(hs[i], x) && x < 0x1_0000_0000
    ensures Expected(mem, hs, x) == SegmentByte(mem, hs[i], x)
  {
    if i > 0 {
      assert Apart(hs[0], hs[i]);
      AllFitTail(hs, limit);
      ExpectedCovered(mem, hs[1..], limit, i - 1, x);
    }
  }

  lemma {:induction false} ExpectedElsewhere(mem: seq<nat>, hs: seq<Segment>, x: nat)
    requires IsMemory(mem) && x < 0x1_0000_0000 && forall i :: 0 <= i < |hs| ==> !Covers(hs[i], x)
    ensures Expected(mem, hs, x) == mem[x]
  {
    if hs != [] {
      ExpectedElsewhere(mem, hs[1..], x);
    }
  }

  /** `file` lies at 64 KB, with its program headers inside it and segments that fit. */
  ghost predicate GoodFile(mem: seq<nat>, file: seq<nat>, a: nat, size: nat, n: nat)
    requires IsMemory(mem)
  {
    && 0x10000 + |file| <= 0x1_0000_0000 && mem[0x10000..0x10000 + |file|] == file
    && HeadersInFile(a, size, n, 0x10000 + |file|) && AllFit(Headers(mem, a, size, n), 0x10000 + |file|)
  }

  /** Byte `k` of a loadable segment is byte `k` of its file part, or zero past it. */
  lemma SegmentLoaded(mem: seq<nat>, file: seq<nat>, a: nat, size: nat, n: nat, i: nat, s: Segment, k: nat)
    requires IsMemory(mem) && GoodFile(mem, file, a, size, n) && i < n
    requires s == Headers(mem, a, size, n)[i] && IsLoad(s) && k < Extent(s)
    ensures s.paddr + k < 0x1_0000_0000 && (k < s.filesz ==> s.offset + k < |file|)
    ensures PlaceAll(mem, a, size, n)[s.paddr + k] == if k < s.filesz then file[s.offset + k] else 0
  {
    var hs, limit := Headers(mem, a, size, n), 0x10000 + |file|;
    assert Fits(s, limit);
    PlacesExpected(mem, a, size, n, limit, s.paddr + k);
    ExpectedCovered(mem, hs, limit, i, s.paddr + k);
    FileByte(mem, file, s, k);
  }

  lemma FileByte(mem: seq<nat>, file: seq<nat>, s: Segment, k: nat)
    requires IsMemory(mem) && 0x10000 + |file| <= 0x1_0000_0000 && mem[0x10000..0x10000 + |file|] == file
    requires IsLoad(s) && Fits(s, 0x10000 + |file|) && k < Extent(s)
    ensures SegmentByte(mem, s, s.paddr + k) == if k < s.filesz then file[s.offset + k] else 0
  {
    if k < s.filesz {
      assert mem[0x10000..0x10000 + |file|][s.offset + k] == mem[0x10000 + s.offset + k];
    }
  }

  /** Memory outside every loadable segment is as it was, the file included. */
  lemma RestUnchanged(mem: seq<nat>, file: seq<nat>, a: nat, size: nat, n: nat, x: nat)
    requires IsMemory(mem) && GoodFile(mem, file, a, size, n) && x < 0x1_0000_0000
    requires forall i :: 0 <= i < n ==> !Covers(Headers(mem, a, size, n)[i], x)
    ensures PlaceAll(mem, a, size, n)[x] == mem[x]
  {
    PlacesExpected(mem, a, size, n, 0x10000 + |file|, x);
    ExpectedElsewhere(mem, Headers(mem, a, size, n), x);
  }

  // ---- From the bytes of the file ----

  /** The 32-bit number at offset `o` of a file, lowest byte first. */
  function Word32(file: seq<nat>, o: nat): nat
    requires o + 4 <= |file|
  {
    file[o] + 0x100 * file[o + 1] + 0x1_0000 * file[o + 2] + 0x100_0000 * file[o + 3]
  }

  function Word16(file: seq<nat>, o: nat): nat
    requires o + 2 <= |file|
  {
    file[o] + 0x100 * file[o + 1]
  }

  ghost predicate FileAt64K(mem: seq<nat>, file: seq<nat>) {
    IsMemory(mem) && 0x10000 + |file| <= 0x1_0000_0000 && mem[0x10000..0x10000 + |file|] == file
  }

  lemma ByteAt64K(mem: seq<nat>, file: seq<nat>, o: nat)
    requires FileAt64K(mem, file) && o < |file|
    ensures Wrap(0x10000 + o) == 0x10000 + o && mem[0x10000 + o] == file[o]
  {
    assert mem[0x10000..0x10000 + |file|][o] == mem[0x10000 + o];
  }

  lemma NumberIsWord16(mem: seq<nat>, file: seq<nat>, o: nat)
    requires FileAt64K(mem, file) && o + 2 <= |file|
    ensures Number(mem, 0x10000 + o, 2) == Word16(file, o)
  {
    ByteAt64K(mem, file, o);
    ByteAt64K(mem, file, o + 1);
    assert Number(mem, 0x10000 + o + 1, 1) == file[o + 1];
  }

  lemma NumberIsWord32(mem: seq<nat>, file: seq<nat>, o: nat)
    requires FileAt64K(mem, file) && o + 4 <= |file|
    ensures Number(mem, 0x10000 + o, 4) == Word32(file, o)
  {
    ByteAt64K(mem, file, o);
    ByteAt64K(mem, file, o + 1);
    NumberIsWord16(mem, file, o + 2);
    assert Number(mem, 0x10000 + o + 1, 3) == file[o + 1] + 0x100 * Word16(file, o + 2);
  }

  /** Where the fields of a program header lie: type, offset, physical address and the two sizes. */
  lemma HeaderFields(mem: seq<nat>, file: seq<nat>, h: nat)
    requires FileAt64K(mem, file) && h + 24 <= |file|
    ensures SegmentAt(mem, 0x10000 + h) ==
            Segment(Word32(file, h), Word32(file, h + 4), Word32(file, h + 12), Word32(file, h + 16), Word32(file, h + 20))
  {
    NumberIsWord32(mem, file, h);
    NumberIsWord32(mem, file, h + 4);
    NumberIsWord32(mem, file, h + 12);
    NumberIsWord32(mem, file, h + 16);
    NumberIsWord32(mem, file, h + 20);
  }

  /** The place `i` steps of `size` after `a`. */
  function Nth(a: nat, size: nat, i: nat): (at: nat)
    ensures a <= at
    decreases i
  {
    if i == 0 then a else Nth(a + size, size, i - 1)
  }

  lemma {:induction false} NthIs(a: nat, size: nat, i: nat)
    ensures Nth(a, size, i) == a + i * size
    decreases i
  {
    if i > 0 {
      NthIs(a + size, size, i - 1);
      assert i * size == size + (i - 1) * size;
    }
  }

  lemma {:induction false} NthShifts(a: nat, size: nat, i: nat, d: nat)
    ensures Nth(a + d, size, i) == Nth(a, size, i) + d
    decreases i
  {
    if i > 0 {
      NthShifts(a + size, size, i - 1, d);
    }
  }

  lemma NthNext(a: nat, size: nat, i: nat, at: nat)
    requires at == Nth(a, size, i) && 0 < i && at < 0x1_0000_0000
    ensures at == Nth(a + size, size, i - 1) && Wrap(a + size) == a + size
  {
  }

  lemma HeadersNext(mem: seq<nat>, a: nat, size: nat, n: nat, i: nat, hs: seq<Segment>)
    requires IsMemory(mem) && 0 < i < n && hs == Headers(mem, Wrap(a + size), size, n - 1)
    ensures Headers(mem, a, size, n)[i] == hs[i - 1]
  {
  }

  /** Header `i` lies `i` header sizes after the first. */
  lemma {:induction false} HeaderAt(mem: seq<nat>, a: nat, size: nat, n: nat, i: nat, at: nat, s: Segment)
    requires IsMemory(mem) && i < n && at == Nth(a, size, i) && at < 0x1_0000_0000 && s == SegmentAt(mem, at)
    ensures Headers(mem, a, size, n)[i] == s
    decreases n
  {
    if i > 0 {
      NthNext(a, size, i, at);
      HeaderAt(mem, a + size, size, n - 1, i - 1, at, s);
      HeadersNext(mem, a, size, n, i, Headers(mem, a + size, size, n - 1));
    }
  }

  /** The header checks, byte by byte. */
  lemma HeaderChecks(mem: seq<nat>)
    requires IsMemory(mem) && forall a :: 0x10000 <= a < 0x10014 ==> mem[a] < 0x100
    ensures HeaderOk(mem) <==>
            && mem[0x10000] == 0x7F && mem[0x10001] == 0x45 && mem[0x10002] == 0x4C && mem[0x10003] == 0x46
            && mem[0x10004] == 1 && mem[0x10005] == 1
            && mem[0x10010] == 2 && mem[0x10011] == 0 && mem[0x10012] == 3 && mem[0x10013] == 0
  {
    assert Number(mem, 0x10000, 4) == mem[0x10000] + 0x100 * (mem[0x10001] + 0x100 * (mem[0x10002] + 0x100 * mem[0x10003]));
    assert Number(mem, 0x10010, 2) == mem[0x10010] + 0x100 * mem[0x10011];
    assert Number(mem, 0x10012, 2) == mem[0x10012] + 0x100 * mem[0x10013];
  }
}
