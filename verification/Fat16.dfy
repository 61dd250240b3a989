/** boot/stage2.asm, fat16_load_file: following a FAT16 cluster chain into memory (FAT specification 1.03, "FAT Data Structure"). */
module Fat16 {
  import opened Words

  const KERNEL_SEG := 0x1000
  const END_OF_CHAIN := 0xFFF8

  type Sector = seq<nat>

  /** The disk by sector number; a missing sector is one the BIOS cannot read. */
  type Disk = map<nat, Sector>

  ghost predicate WellFormed(disk: Disk) {
    forall lba :: lba in disk ==> |disk[lba]| == 512
  }

  /** What is the same for the whole load: sectors per cluster and the first data sector. */
  datatype Volume = Volume(disk: Disk, spc: nat, dataStart: nat)

  ghost predicate Proper(v: Volume) {
    WellFormed(v.disk) && 1 <= v.spc < 256 && v.dataStart < 0x10000
  }

  // ---- What the file is ----

  predicate Readable(disk: Disk, lba: nat, n: nat) {
    n == 0 || (Readable(disk, lba, n - 1) && lba + n - 1 in disk)
  }

  lemma {:induction false} ReadableShorter(disk: Disk, lba: nat, n: nat, m: nat)
    requires m <= n && Readable(disk, lba, n)
    ensures Readable(disk, lba, m)
  {
    if m < n {
      ReadableShorter(disk, lba, n - 1, m);
    }
  }

  /** The bytes of `n` sectors from `lba` on; a missing one counts as zeros. */
  function SectorBytes(disk: Disk, lba: nat, n: nat): (r: seq<nat>)
  {
    if n == 0 then [] else SectorBytes(disk, lba, n - 1) + (if lba + n - 1 in disk then disk[lba + n - 1] else seq(512, i => 0))
  }

  lemma {:induction false} SectorBytesLength(disk: Disk, lba: nat, n: nat)
    requires WellFormed(disk)
    ensures |SectorBytes(disk, lba, n)| == 512 * n
  {
    if n > 0 {
      SectorBytesLength(disk, lba, n - 1);
    }
  }

  /** The value a 16-bit register keeps of `x`. */
  function Low16(x: nat): (r: nat)
    ensures r < 0x10000
  {
    if x < 0x10000 then x else Low16(x - 0x10000)
  }

  /** The first sector of cluster `c` in 16-bit arithmetic. */
  function ClusterLba(v: Volume, c: nat): nat {
    Low16(Low16(Low16(c + 0xFFFE) * v.spc) + v.dataStart)
  }

  function ClusterBytes(v: Volume, c: nat): seq<nat> {
    SectorBytes(v.disk, ClusterLba(v, c), v.spc)
  }

  /** The clusters of a chain, one after the other. */
  function Image(v: Volume, chain: seq<nat>): seq<nat> {
    if chain == [] then [] else Image(v, chain[..|chain| - 1]) + ClusterBytes(v, chain[|chain| - 1])
  }

  predicate ChainReadable(v: Volume, chain: seq<nat>) {
    forall i :: 0 <= i < |chain| ==> Readable(v.disk, ClusterLba(v, chain[i]), v.spc)
  }

  /** Below the 16-bit limits a cluster lies where the FAT specification puts it. */
  lemma ClusterPlace(v: Volume, c: nat)
    requires 2 <= c < 0x10000 && v.dataStart + (c - 2) * v.spc < 0x10000
    ensures ClusterLba(v, c) == v.dataStart + (c - 2) * v.spc
  {
    assert Low16(c + 0xFFFE) == c - 2;
    assert 0 <= (c - 2) * v.spc;
  }

  lemma {:induction false} SectorByte(disk: Disk, lba: nat, n: nat, j: nat, k: nat)
    requires WellFormed(disk) && Readable(disk, lba, n) && j < n && k < 512
    ensures lba + j in disk && |SectorBytes(disk, lba, n)| == 512 * n && SectorBytes(disk, lba, n)[512 * j + k] == disk[lba + j][k]
  {
    SectorBytesLength(disk, lba, n);
    SectorBytesLength(disk, lba, n - 1);
    if j < n - 1 {
      SectorByte(disk, lba, n - 1, j, k);
    }
  }

  lemma Multiples(b: nat, i: nat, n: nat)
    requires i < n
    ensures b * i + b <= b * n
  {
    assert b * (i + 1) == b * i + b;
    assert b * n == b * (i + 1) + b * (n - i - 1);
  }

  lemma {:induction false} ClusterInImage(v: Volume, chain: seq<nat>, b: nat, i: nat, x: nat)
    requires WellFormed(v.disk) && b == 512 * v.spc && i < |chain| && x < b
    ensures |Image(v, chain)| == b * |chain| && b * i + x < b * |chain| && |ClusterBytes(v, chain[i])| == b
    ensures Image(v, chain)[b * i + x] == ClusterBytes(v, chain[i])[x]
  {
    var n := |chain| - 1;
    SectorBytesLength(v.disk, ClusterLba(v, chain[i]), v.spc);
    SectorBytesLength(v.disk, ClusterLba(v, chain[n]), v.spc);
    Multiples(b, i, |chain|);
    assert b * |chain| == b * n + b;
    if i < n {
      Multiples(b, i, n);
      ClusterInImage(v, chain[..n], b, i, x);
    } else if n > 0 {
      ClusterInImage(v, chain[..n], b, 0, x);
    }
  }

  /**
   What the file is, from the disk: below the 16-bit limits, byte `k` of sector `j` of the `i`-th cluster of a chain is
   byte `k` of the sector where the FAT specification puts it.
   */
  lemma ImageByte(v: Volume, chain: seq<nat>, i: nat, j: nat, k: nat)
    requires WellFormed(v.disk) && ChainReadable(v, chain) && i < |chain| && j < v.spc && k < 512
    requires 2 <= chain[i] < 0x10000 && v.dataStart + (chain[i] - 2) * v.spc < 0x10000
    ensures 0 <= (chain[i] - 2) * v.spc && v.dataStart + (chain[i] - 2) * v.spc + j in v.disk
    ensures 512 * v.spc * i + 512 * j + k < |Image(v, chain)|
    ensures Image(v, chain)[512 * v.spc * i + 512 * j + k] == v.disk[v.dataStart + (chain[i] - 2) * v.spc + j][k]
  {
    ClusterPlace(v, chain[i]);
    assert 0 <= (chain[i] - 2) * v.spc;
    ClusterInImage(v, chain, 512 * v.spc, i, 512 * j + k);
    SectorByte(v.disk, ClusterLba(v, chain[i]), v.spc, j, k);
  }

  // ---- The chain in the cached FAT ----

  /** The entry the loader reads for cluster `c`: 16-bit addresses into the first 64 KB of memory. */
  function Entry(low: seq<nat>, c: nat): nat
    requires |low| == 0x10000
  {
    var a := Low16(2 * c + 0x1000);
    low[a] + 256 * low[Low16(a + 1)]
  }

  ghost predicate IsChain(low: seq<nat>, first: nat, chain: seq<nat>)
    requires |low| == 0x10000
  {
    && chain != [] && chain[0] == first
    && (forall i :: 0 <= i < |chain| - 1 ==> chain[i + 1] == Entry(low, chain[i]) < END_OF_CHAIN)
    && Entry(low, chain[|chain| - 1]) >= END_OF_CHAIN
  }

  /** The two bytes of the cached FAT for cluster `c`. */
  function FatWord(low: seq<nat>, c: nat): nat
    requires |low| == 0x10000 && c < 0x7800
  {
    low[0x1000 + 2 * c] + 256 * low[0x1000 + 2 * c + 1]
  }

  /** Below the 16-bit limit, a chain is what the bytes of the FAT at 0x1000 say. */
  lemma ChainFromFat(low: seq<nat>, first: nat, chain: seq<nat>)
    requires |low| == 0x10000 && forall i :: 0 <= i < |chain| ==> chain[i] < 0x7800
    ensures IsChain(low, first, chain) <==>
            && chain != [] && chain[0] == first && FatWord(low, chain[|chain| - 1]) >= 0xFFF8
            && forall i :: 0 <= i < |chain| - 1 ==> FatWord(low, chain[i]) == chain[i + 1]
  {
    forall i | 0 <= i < |chain| ensures Entry(low, chain[i]) == FatWord(low, chain[i]) {
      assert Low16(2 * chain[i] + 0x1000) == 2 * chain[i] + 0x1000;
    }
    if IsChain(low, first, chain) {
      forall i | 0 <= i < |chain| - 1 ensures FatWord(low, chain[i]) == chain[i + 1] {
        assert chain[i + 1] == Entry(low, chain[i]);
      }
    } else if chain != [] && chain[0] == first && FatWord(low, chain[|chain| - 1]) >= 0xFFF8 {
      var i :| 0 <= i < |chain| - 1 && !(chain[i + 1] == Entry(low, chain[i]) < END_OF_CHAIN);
      assert FatWord(low, chain[i]) != chain[i + 1];
    }
  }

  /** The cluster the loader is at after `n` steps. */
  function At(low: seq<nat>, first: nat, n: nat): nat
    requires |low| == 0x10000
  {
    if n == 0 then first else Entry(low, At(low, first, n - 1))
  }

  /** The walk stops within `n` steps. */
  ghost predicate StopsBy(low: seq<nat>, first: nat, n: nat)
    requires |low| == 0x10000
  {
    exists i :: 1 <= i <= n && At(low, first, i) >= END_OF_CHAIN
  }

  lemma {:induction false} AtShifts(low: seq<nat>, first: nat, i: nat, j: nat, n: nat)
    requires |low| == 0x10000 && At(low, first, i) == At(low, first, j)
    ensures At(low, first, i + n) == At(low, first, j + n)
  {
    if n > 0 {
      AtShifts(low, first, i, j, n - 1);
    }
  }

  lemma {:induction false} CycleBack(low: seq<nat>, first: nat, i: nat, j: nat, n: nat)
    requires |low| == 0x10000 && i < j && At(low, first, i) == At(low, first, j)
    requires forall m :: 1 <= m <= j ==> At(low, first, m) < END_OF_CHAIN
    ensures n >= 1 ==> At(low, first, n) < END_OF_CHAIN
    decreases n
  {
    if n > j {
      AtShifts(low, first, i, j, n - j);
      CycleBack(low, first, i, j, i + (n - j));
    }
  }

  /** A chain that comes back to a cluster before it ends never ends. */
  lemma CycleNeverStops(low: seq<nat>, first: nat, i: nat, j: nat, n: nat)
    requires |low| == 0x10000 && i < j && At(low, first, i) == At(low, first, j) && !StopsBy(low, first, j)
    ensures !StopsBy(low, first, n)
  {
    forall m | 1 <= m <= n ensures At(low, first, m) < END_OF_CHAIN {
      CycleBack(low, first, i, j, m);
    }
  }

  lemma {:induction false} ChainAt(low: seq<nat>, first: nat, chain: seq<nat>, i: nat)
    requires |low| == 0x10000 && IsChain(low, first, chain) && i < |chain|
    ensures chain[i] == At(low, first, i)
  {
    if i > 0 {
      ChainAt(low, first, chain, i - 1);
    }
  }

  /** A chain that ends visits no cluster twice. */
  lemma ChainIsAcyclic(low: seq<nat>, first: nat, chain: seq<nat>, i: nat, j: nat)
    requires |low| == 0x10000 && IsChain(low, first, chain) && i < j < |chain|
    ensures chain[i] != chain[j]
  {
    var n := |chain|;
    ChainAt(low, first, chain, i);
    ChainAt(low, first, chain, j);
    ChainAt(low, first, chain, n - 1);
    if chain[i] == chain[j] {
      forall m | 1 <= m <= j ensures At(low, first, m) < END_OF_CHAIN {
        ChainAt(low, first, chain, m);
        assert chain[m - 1 + 1] == Entry(low, chain[m - 1]);
      }
      CycleBack(low, first, i, j, n);
    }
  }

  ghost predicate Distinct(s: seq<nat>) {
    forall i, j :: 0 <= i < j < |s| ==> s[i] != s[j]
  }

  ghost function Elements(s: seq<nat>): (r: set<nat>)
    ensures forall x :: x in r <==> x in s
  {
    if s == [] then {} else Elements(s[..|s| - 1]) + {s[|s| - 1]}
  }

  lemma {:induction false} DistinctCount(s: seq<nat>)
    requires Distinct(s)
    ensures |Elements(s)| == |s|
  {
    if s != [] {
      DistinctCount(s[..|s| - 1]);
      assert s[|s| - 1] !in s[..|s| - 1];
    }
  }

  ghost function Range(n: nat): (r: set<nat>)
    ensures |r| == n && forall x: nat :: x in r <==> x < n
  {
    if n == 0 then {} else Range(n - 1) + {n - 1}
  }

  lemma Pigeonhole(s: seq<nat>, n: nat)
    requires |s| > n && forall i :: 0 <= i < |s| ==> s[i] < n
    ensures !Distinct(s)
  {
    if Distinct(s) {
      DistinctCount(s);
      SmallerSet(Elements(s), Range(n));
    }
  }

  /** The walk comes back to a cluster before it has stopped. */
  ghost predicate Repeats(low: seq<nat>, first: nat)
    requires |low| == 0x10000
  {
    exists i, j :: 0 <= i < j && At(low, first, i) == At(low, first, j) && !StopsBy(low, first, j)
  }

  lemma RunningRepeats(low: seq<nat>, first: nat)
    requires |low| == 0x10000 && !StopsBy(low, first, 0x10000)
    ensures Repeats(low, first)
  {
    var s := seq(0xFFF9, i requires 0 <= i => At(low, first, i + 1));
    forall i | 0 <= i < |s| ensures s[i] < END_OF_CHAIN {
      assert s[i] == At(low, first, i + 1);
    }
    Pigeonhole(s, END_OF_CHAIN);
    var i, j :| 0 <= i < j < |s| && s[i] == s[j];
    assert At(low, first, i + 1) == At(low, first, j + 1);
    assert !StopsBy(low, first, j + 1);
  }

  /** The loader's walk ends exactly when it does not come back to a cluster, and then within 65536 steps. */
  lemma StopsUnlessRepeats(low: seq<nat>, first: nat, n: nat)
    requires |low| == 0x10000
    ensures Repeats(low, first) ==> !StopsBy(low, first, n)
    ensures !Repeats(low, first) ==> StopsBy(low, first, 0x10000)
  {
    if Repeats(low, first) {
      var i, j :| 0 <= i < j && At(low, first, i) == At(low, first, j) && !StopsBy(low, first, j);
      CycleNeverStops(low, first, i, j, n);
    }
    if !StopsBy(low, first, 0x10000) {
      RunningRepeats(low, first);
    }
  }

  /** The low 64 KB with one entry in the FAT: cluster 2 names itself. */
  function SelfLoop(): (low: seq<nat>)
    ensures |low| == 0x10000
  {
    seq(0x10000, i => if i == 0x1004 then 2 else 0)
  }

  /** A file whose first cluster names itself is never finished loading. */
  lemma SelfLoopNeverStops(n: nat)
    ensures Repeats(SelfLoop(), 2) && !StopsBy(SelfLoop(), 2, n)
  {
    var low := SelfLoop();
    assert Entry(low, 2) == 2;
    assert At(low, 2, 0) == 2 && At(low, 2, 1) == 2;
    assert !StopsBy(low, 2, 1);
    StopsUnlessRepeats(low, 2, n);
  }

  /** A walk that ends has followed a chain. */
  lemma {:induction false} StopsHasChain(low: seq<nat>, first: nat, n: nat)
    requires |low| == 0x10000 && StopsBy(low, first, n)
    ensures exists chain :: IsChain(low, first, chain) && |chain| <= n
  {
    if StopsBy(low, first, n - 1) {
      StopsHasChain(low, first, n - 1);
    } else {
      var chain := seq(n, i requires 0 <= i => At(low, first, i));
      forall i | 0 <= i < |chain| - 1 ensures chain[i + 1] == Entry(low, chain[i]) < END_OF_CHAIN {
        assert At(low, first, i + 1) < END_OF_CHAIN;
      }
      assert IsChain(low, first, chain);
    }
  }

  // ---- Memory ----

  /** Memory with `data` written at `base`, byte by byte. */
  function Splice(mem: seq<nat>, base: nat, data: seq<nat>): (r: seq<nat>)
    requires base + |data| <= |mem|
    ensures |r| == |mem|
  {
    if data == [] then mem
    else Splice(mem, base, data[..|data| - 1])[base + |data| - 1 := data[|data| - 1]]
  }

  lemma {:induction false} SpliceAt(mem: seq<nat>, base: nat, data: seq<nat>)
    requires base + |data| <= |mem|
    ensures forall i :: 0 <= i < |mem| ==>
              Splice(mem, base, data)[i] == if base <= i < base + |data| then data[i - base] else mem[i]
  {
    if data != [] {
      SpliceAt(mem, base, data[..|data| - 1]);
    }
  }

  lemma SpliceTwice(mem: seq<nat>, base: nat, x: seq<nat>, y: seq<nat>)
    requires base + |x| + |y| <= |mem|
    ensures Splice(Splice(mem, base, x), base + |x|, y) == Splice(mem, base, x + y)
  {
    SpliceAt(mem, base, x);
    SpliceAt(Splice(mem, base, x), base + |x|, y);
    SpliceAt(mem, base, x + y);
  }

  /** Only the bytes written change, and they read as written. */
  lemma SpliceParts(mem: seq<nat>, base: nat, data: seq<nat>)
    requires base + |data| <= |mem|
    ensures Splice(mem, base, data)[..base] == mem[..base]
    ensures Splice(mem, base, data)[base..base + |data|] == data
    ensures Splice(mem, base, data)[base + |data|..] == mem[base + |data|..]
  {
    SpliceAt(mem, base, data);
  }

  /** A part of `n` bytes written changes nothing outside them. */
  lemma SpliceOutside(mem: seq<nat>, base: nat, data: seq<nat>, n: nat)
    requires |data| <= n && base + n <= |mem|
    ensures Splice(mem, base, data)[..base] == mem[..base]
    ensures Splice(mem, base, data)[base + n..] == mem[base + n..]
  {
    SpliceAt(mem, base, data);
  }

  lemma {:induction false} SpliceByte(mem: seq<nat>, base: nat, data: seq<nat>, x: nat)
    requires base + |data| <= |mem| && x < |data|
    ensures Splice(mem, base, data)[base + x] == data[x]
  {
    if x < |data| - 1 {
      SpliceByte(mem, base, data[..|data| - 1], x);
    }
  }

  /** What `fat16_load_file` leaves at address 0x10000 + `x`, from the sector `lba` of the disk. */
  lemma LoadedByte(was: seq<nat>, v: Volume, chain: seq<nat>, i: nat, j: nat, k: nat, x: nat, lba: nat)
    requires WellFormed(v.disk) && ChainReadable(v, chain) && i < |chain| && j < v.spc && k < 512
    requires 2 <= chain[i] < 0x10000 && v.dataStart + (chain[i] - 2) * v.spc < 0x10000
    requires x == 512 * v.spc * i + 512 * j + k && lba == v.dataStart + (chain[i] - 2) * v.spc + j
    requires 0x10000 + |Image(v, chain)| <= |was|
    ensures lba in v.disk && 0x10000 + x < |was| && Splice(was, 0x10000, Image(v, chain))[0x10000 + x] == v.disk[lba][k]
  {
    ImageByte(v, chain, i, j, k);
    SpliceByte(was, 0x10000, Image(v, chain), x);
  }

  class Loader {
    const mem: array<nat>
    const volume: Volume
    var cluster: nat
    var segment: nat

    ghost predicate Valid()
      reads this
    {
      mem.Length >= 0x100000 && Proper(volume)
    }

    /** One sector into memory. */
    method CopySector(base: nat, data: Sector)
      requires base + |data| <= mem.Length
      modifies mem
      ensures mem[..] == Splice(old(mem[..]), base, data)
    {
      forall i | 0 <= i < |data| {
        mem[base + i] := data[i];
      }
      SpliceAt(old(mem[..]), base, data);
    }

    /** The BIOS extended read, `read_sectors`: all of it, or an error after some of it. */
    method ReadSectors(lba: nat, n: nat, base: nat) returns (ok: bool)
      requires WellFormed(volume.disk) && base + 512 * n <= mem.Length
      modifies mem
      ensures ok == Readable(volume.disk, lba, n)
      ensures |SectorBytes(volume.disk, lba, n)| == 512 * n
      ensures ok ==> mem[..] == Splice(old(mem[..]), base, SectorBytes(volume.disk, lba, n))
      ensures mem[..base] == old(mem[..base]) && mem[base + 512 * n..] == old(mem[base + 512 * n..])
    {
      ghost var was := mem[..];
      SectorBytesLength(volume.disk, lba, n);
      var i := 0;
      ok := true;
      while i < n && ok
        invariant 0 <= i <= n && Readable(volume.disk, lba, i)
        invariant ok || (i < n && lba + i !in volume.disk)
        invariant |SectorBytes(volume.disk, lba, i)| == 512 * i
        invariant mem[..] == Splice(was, base, SectorBytes(volume.disk, lba, i))
        decreases n - i, ok
      {
        ok := ReadSector(lba, i, base, was);
        if ok {
          i := i + 1;
        }
      }
      if !ok && Readable(volume.disk, lba, n) {
        ReadableShorter(volume.disk, lba, n, i + 1);
      }
      SpliceOutside(was, base, SectorBytes(volume.disk, lba, i), 512 * n);
      assert mem[..base] == mem[..][..base] && mem[base + 512 * n..] == mem[..][base + 512 * n..];
    }

    /** Sector number `i` of a read, if the disk gives it. */
    method ReadSector(lba: nat, i: nat, base: nat, ghost was: seq<nat>) returns (ok: bool)
      requires WellFormed(volume.disk) && base + 512 * (i + 1) <= mem.Length == |was|
      requires |SectorBytes(volume.disk, lba, i)| == 512 * i && mem[..] == Splice(was, base, SectorBytes(volume.disk, lba, i))
      modifies mem
      ensures ok <==> lba + i in volume.disk
      ensures ok ==> |SectorBytes(volume.disk, lba, i + 1)| == 512 * (i + 1)
      ensures ok ==> mem[..] == Splice(was, base, SectorBytes(volume.disk, lba, i + 1))
      ensures !ok ==> mem[..] == old(mem[..])
    {
      ok := lba + i in volume.disk;
      if ok {
        SpliceTwice(was, base, SectorBytes(volume.disk, lba, i), volume.disk[lba + i]);
        CopySector(base + 512 * i, volume.disk[lba + i]);
      }
    }

    /** One round of `fat16_load_file`: read the cluster, move the segment on, look up the next cluster. */
    method LoadCluster() returns (ok: bool)
      requires Valid() && 0x1000 <= segment && 16 * segment + 512 * volume.spc <= 0x100000
      modifies this`cluster, this`segment, mem
      ensures ok == Readable(volume.disk, ClusterLba(volume, old(cluster)), volume.spc)
      ensures |ClusterBytes(volume, old(cluster))| == 512 * volume.spc
      ensures ok ==> mem[..] == Splice(old(mem[..]), 16 * old(segment), ClusterBytes(volume, old(cluster)))
      ensures ok ==> segment == Low16(old(segment) + 32 * volume.spc)
      ensures ok ==> cluster == Entry(old(mem[..0x10000]), old(cluster))
      ensures mem[..16 * old(segment)] == old(mem[..16 * segment])
      ensures mem[16 * old(segment) + 512 * volume.spc..] == old(mem[16 * segment + 512 * volume.spc..])
    {
      var product := Low16(Low16(cluster + 0xFFFE) * volume.spc);
      ok := ReadSectors(Low16(product + volume.dataStart), volume.spc, 16 * segment);
      if ok {
        assert mem[..16 * segment][..0x10000] == mem[..0x10000] && old(mem[..16 * segment])[..0x10000] == old(mem[..0x10000]);
        segment := Low16(segment + 32 * volume.spc);
        var a := Low16(2 * cluster + 0x1000);
        assert mem[..0x10000][a] == mem[a] && mem[..0x10000][Low16(a + 1)] == mem[Low16(a + 1)];
        cluster := mem[a] + 256 * mem[Low16(a + 1)];
      }
    }

    /** The same round, as a step along the chain. */
    method LoadNext(ghost was: seq<nat>, ghost chain: seq<nat>, ghost done: nat) returns (ok: bool)
      requires Valid() && 0x10000 + |Image(volume, chain)| <= 0x100000
      requires done < |chain| && cluster == chain[done]
      requires Progress(was, mem[..], volume, chain, done) && SegmentAt(volume, chain, done, segment)
      modifies this`cluster, this`segment, mem
      ensures ok == Readable(volume.disk, ClusterLba(volume, chain[done]), volume.spc)
      ensures ok ==> Progress(was, mem[..], volume, chain, done + 1) && SegmentAt(volume, chain, done + 1, segment)
      ensures ok ==> cluster == Entry(was[..0x10000], chain[done])
      ensures !ok ==> Loaded(was, mem[..], volume, chain, done)
    {
      ghost var before, at := mem[..], segment;
      ImageStep(volume, chain, done);
      ok := LoadCluster();
      if ok {
        RoundProgresses(was, before, mem[..], volume, chain, done, 16 * at);
        NextSegment(volume, chain, done, at);
      } else {
        LoadedPart(was, before, mem[..], volume, chain, done);
      }
    }

    /** `fat16_load_file`, for a chain that ends and fits below 1 MB; `done` counts the clusters loaded whole. */
    method LoadFile(first: nat, ghost chain: seq<nat>) returns (ok: bool, ghost done: nat)
      requires Valid() && IsChain(mem[..0x10000], first, chain)
      requires 0x10000 + |Image(volume, chain)| <= 0x100000
      modifies this`cluster, this`segment, mem
      ensures ok <==> ChainReadable(volume, chain)
      ensures ok ==> mem[..] == Splice(old(mem[..]), 0x10000, Image(volume, chain))
      ensures done <= |chain| && ChainReadable(volume, chain[..done])
      ensures !ok ==> done < |chain| && !Readable(volume.disk, ClusterLba(volume, chain[done]), volume.spc)
      ensures Loaded(old(mem[..]), mem[..], volume, chain, done)
    {
      ghost var was := mem[..];
      assert was[..0x10000] == mem[..0x10000];
      cluster, segment, done := first, KERNEL_SEG, 0;
      while true
        invariant done < |chain| && cluster == chain[done]
        invariant Progress(was, mem[..], volume, chain, done) && SegmentAt(volume, chain, done, segment)
        decreases |chain| - done
      {
        ok := LoadNext(was, chain, done);
        if !ok {
          return;
        }
        done := done + 1;
        if cluster >= END_OF_CHAIN {
          LoadedAll(was, mem[..], volume, chain, done);
          return;
        }
      }
    }
  }

  /** Where the loader stands when it is about to load cluster number `done` of the chain. */
  ghost predicate Progress(was: seq<nat>, now: seq<nat>, v: Volume, chain: seq<nat>, done: nat) {
    && done <= |chain| && ChainReadable(v, chain[..done])
    && 0x10000 + |Image(v, chain[..done])| <= 0x100000 <= |was| == |now|
    && now == Splice(was, 0x10000, Image(v, chain[..done]))
  }

  /** The load segment points just past the clusters loaded. */
  ghost predicate SegmentAt(v: Volume, chain: seq<nat>, done: nat, segment: nat)
    requires done <= |chain|
  {
    done < |chain| ==> 16 * segment == 0x10000 + |Image(v, chain[..done])|
  }

  lemma NextSegment(v: Volume, chain: seq<nat>, done: nat, at: nat)
    requires Proper(v) && done < |chain| && SegmentAt(v, chain, done, at)
    requires 0x10000 + |Image(v, chain)| <= 0x100000
    ensures SegmentAt(v, chain, done + 1, Low16(at + 32 * v.spc))
  {
    ImageStep(v, chain, done);
    if done + 1 < |chain| {
      ImageStep(v, chain, done + 1);
    }
  }

  lemma ReadableOneMore(v: Volume, chain: seq<nat>, done: nat)
    requires done < |chain| && ChainReadable(v, chain[..done]) && Readable(v.disk, ClusterLba(v, chain[done]), v.spc)
    ensures ChainReadable(v, chain[..done + 1])
  {
  }

  lemma RoundProgresses(was: seq<nat>, before: seq<nat>, now: seq<nat>, v: Volume, chain: seq<nat>, done: nat, base: nat)
    requires Proper(v) && Progress(was, before, v, chain, done) && done < |chain|
    requires 0x10000 + |Image(v, chain)| <= 0x100000 && base == 0x10000 + |Image(v, chain[..done])|
    requires Readable(v.disk, ClusterLba(v, chain[done]), v.spc) && base + |ClusterBytes(v, chain[done])| <= |before|
    requires now == Splice(before, base, ClusterBytes(v, chain[done]))
    ensures Progress(was, now, v, chain, done + 1)
    ensures before[..0x10000] == was[..0x10000]
  {
    var x, y := Image(v, chain[..done]), ClusterBytes(v, chain[done]);
    ImageStep(v, chain, done);
    SpliceTwice(was, 0x10000, x, y);
    SpliceParts(was, 0x10000, x);
    ReadableOneMore(v, chain, done);
  }

  /** The first `done` clusters of the chain lie at 64 KB in order, and nothing outside the room for the file has changed. */
  ghost predicate Loaded(was: seq<nat>, now: seq<nat>, v: Volume, chain: seq<nat>, done: nat)
    requires |was| == |now| >= 0x10000 + |Image(v, chain)| && done <= |chain|
  {
    var n := |Image(v, chain[..done])|;
    && n <= |Image(v, chain)|
    && now[0x10000..0x10000 + n] == Image(v, chain[..done])
    && now[..0x10000] == was[..0x10000]
    && now[0x10000 + |Image(v, chain)|..] == was[0x10000 + |Image(v, chain)|..]
  }

  lemma LoadedAll(was: seq<nat>, now: seq<nat>, v: Volume, chain: seq<nat>, done: nat)
    requires |was| == |now| >= 0x10000 + |Image(v, chain)| && done == |chain| && ChainReadable(v, chain[..done])
    requires |was| >= 0x10000 + |Image(v, chain[..done])| && now == Splice(was, 0x10000, Image(v, chain[..done]))
    ensures Loaded(was, now, v, chain, done) && now == Splice(was, 0x10000, Image(v, chain)) && ChainReadable(v, chain)
  {
    assert chain[..done] == chain;
    SpliceParts(was, 0x10000, Image(v, chain));
  }

  /** A failed read leaves the clusters before it in place. */
  lemma LoadedPart(was: seq<nat>, before: seq<nat>, now: seq<nat>, v: Volume, chain: seq<nat>, done: nat)
    requires |was| == |before| == |now| >= 0x10000 + |Image(v, chain)| && done < |chain| && WellFormed(v.disk)
    requires |Image(v, chain[..done])| <= |Image(v, chain)|
    requires before == Splice(was, 0x10000, Image(v, chain[..done]))
    requires now[..0x10000 + |Image(v, chain[..done])|] == before[..0x10000 + |Image(v, chain[..done])|]
    requires |Image(v, chain[..done])| + 512 * v.spc <= |Image(v, chain)|
    requires now[0x10000 + |Image(v, chain[..done])| + 512 * v.spc..] == before[0x10000 + |Image(v, chain[..done])| + 512 * v.spc..]
    ensures Loaded(was, now, v, chain, done)
  {
    var p := 0x10000 + |Image(v, chain[..done])|;
    SpliceParts(was, 0x10000, Image(v, chain[..done]));
    assert now[0x10000..p] == now[..p][0x10000..];
    assert now[..0x10000] == now[..p][..0x10000];
    assert forall i :: p + 512 * v.spc <= i < |now| ==> now[i] == now[p + 512 * v.spc..][i - p - 512 * v.spc];
    assert forall i :: p + 512 * v.spc <= i < |now| ==> before[i] == before[p + 512 * v.spc..][i - p - 512 * v.spc];
  }

  lemma {:induction false} ImagePrefix(v: Volume, chain: seq<nat>, i: nat)
    requires i <= |chain|
    ensures |Image(v, chain[..i])| <= |Image(v, chain)|
  {
    if i == |chain| {
      assert chain[..i] == chain;
    } else {
      ImagePrefix(v, chain[..|chain| - 1], i);
      assert chain[..|chain| - 1][..i] == chain[..i];
    }
  }

  lemma ImageStep(v: Volume, chain: seq<nat>, i: nat)
    requires i < |chain| && WellFormed(v.disk)
    ensures Image(v, chain[..i + 1]) == Image(v, chain[..i]) + ClusterBytes(v, chain[i])
    ensures |ClusterBytes(v, chain[i])| == 512 * v.spc
    ensures |Image(v, chain[..i + 1])| <= |Image(v, chain)|
  {
    assert chain[..i + 1][..i] == chain[..i];
    SectorBytesLength(v.disk, ClusterLba(v, chain[i]), v.spc);
    ImagePrefix(v, chain, i + 1);
  }
}
