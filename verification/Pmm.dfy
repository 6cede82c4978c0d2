// The physical frame allocator of kernel/mem/pmm.c: a bitmap of 32-bit words,
// one bit per 4 KiB frame. A word is given by its 32 bits, so w | (1 << j),
// w & ~(1 << j) and w & (1 << j) set, clear and read position j.
module Pmm {
  import opened Common

  const BITMAP_WORDS: nat := 0x8000
  const FRAMES: nat := 0x10_0000
  const MULTIBOOT_MEMORY_AVAILABLE: nat := 1

  type FrameNumber = f: nat | f < 0x10_0000
  type Address = a: nat | a < 0x1_0000_0000
  type Word = w: seq<bool> | |w| == 32 witness seq(32, _ => false)
  type Bitmap = b: seq<Word> | |b| == 0x8000 witness seq(0x8000, _ => seq(32, _ => false))

  // The word 0xFFFFFFFF.
  const FULL: Word := seq(32, _ => true)

  // ----- the bitmap as a set of frames -----

  predicate Used(b: Bitmap, f: FrameNumber) {
    b[f / 32][f % 32]
  }

  // The bitmap `after` is `before` with exactly the bit of frame `f` changed to `value`.
  ghost predicate OnlyChanges(before: Bitmap, after: Bitmap, f: FrameNumber, value: bool) {
    forall g: FrameNumber :: Used(after, g) == if g == f then value else Used(before, g)
  }

  function Mark(b: Bitmap, f: FrameNumber, value: bool): (r: Bitmap)
    ensures OnlyChanges(b, r, f, value)
  {
    b[f / 32 := b[f / 32][f % 32 := value]]
  }

  lemma MarkTwice(b: Bitmap, f: FrameNumber, value: bool)
    ensures Mark(Mark(b, f, value), f, value) == Mark(b, f, value)
  {
    var w := b[f / 32][f % 32 := value];
    assert w[f % 32 := value] == w;
  }

  // A frame counts when frame_bmp_get_first can reach its word.
  function ManagedFrames(memorySize: nat): nat {
    memorySize / 4096 / 32 * 32
  }

  // The words below which the scan stays are those whose 32 frames, 128 KiB,
  // lie wholly in memory.
  predicate Managed(memorySize: nat, f: FrameNumber) {
    0x2_0000 * (f / 32 + 1) <= memorySize
  }

  lemma AllManaged(memorySize: nat)
    ensures forall f: FrameNumber :: f < ManagedFrames(memorySize) <==> Managed(memorySize, f)
  {
    forall f: FrameNumber ensures f < ManagedFrames(memorySize) <==> Managed(memorySize, f) {
      ManagedIff(memorySize, f);
    }
  }

  lemma ManagedIff(memorySize: nat, f: FrameNumber)
    ensures f < ManagedFrames(memorySize) <==> Managed(memorySize, f)
  {
  }

  // The least unused frame in [from, limit), or `limit` when there is none.
  function FirstFree(b: Bitmap, from: nat, limit: nat): (f: nat)
    requires from <= limit <= FRAMES
    ensures from <= f <= limit
    ensures f < limit ==> !Used(b, f)
    ensures forall g: FrameNumber :: from <= g < f ==> Used(b, g)
    decreases limit - from
  {
    if from == limit || !Used(b, from) then from else FirstFree(b, from + 1, limit)
  }

  // How many frames below `limit` are free.
  function FreeCount(b: Bitmap, limit: nat): nat
    requires limit <= FRAMES
  {
    if limit == 0 then 0 else FreeCount(b, limit - 1) + if Used(b, limit - 1) then 0 else 1
  }

  lemma {:induction false} NoneFree(b: Bitmap, limit: nat)
    requires limit <= FRAMES
    ensures FreeCount(b, limit) == 0 <==> forall f: FrameNumber :: f < limit ==> Used(b, f)
  {
    if limit > 0 {
      NoneFree(b, limit - 1);
    }
  }

  lemma {:induction false} MarkCounts(b: Bitmap, f: FrameNumber, limit: nat)
    requires limit <= FRAMES && !Used(b, f)
    ensures FreeCount(b, limit) == FreeCount(Mark(b, f, true), limit) + if f < limit then 1 else 0
  {
    if limit > 0 {
      MarkCounts(b, f, limit - 1);
    }
  }

  class FrameAllocator {
    const framesBmp: array<Word>
    var memorySize: nat

    constructor ()
      ensures fresh(framesBmp) && framesBmp.Length == BITMAP_WORDS
    {
      framesBmp := new Word[BITMAP_WORDS];
    }

    ghost predicate Valid()
      reads this
    {
      framesBmp.Length == BITMAP_WORDS && ManagedFrames(memorySize) <= FRAMES
    }

    ghost function Bits(): Bitmap
      requires Valid()
      reads this, framesBmp
    {
      framesBmp[..]
    }

    method FrameBmpSet(addr: Address)
      requires Valid()
      modifies framesBmp
      ensures Bits() == Mark(old(Bits()), addr / 4096, true)
    {
      var frameNbr := addr / 4096;
      framesBmp[frameNbr / 32] := framesBmp[frameNbr / 32][frameNbr % 32 := true];
    }

    method FrameBmpReset(addr: Address)
      requires Valid()
      modifies framesBmp
      ensures Bits() == Mark(old(Bits()), addr / 4096, false)
    {
      var frameNbr := addr / 4096;
      framesBmp[frameNbr / 32] := framesBmp[frameNbr / 32][frameNbr % 32 := false];
    }

    method FrameBmpGetFirst() returns (panicked: bool, r: nat)
      requires Valid()
      ensures panicked <==> FirstFree(Bits(), 0, ManagedFrames(memorySize)) == ManagedFrames(memorySize)
      ensures r == if panicked then 0xFFFF_FFFF else FirstFree(Bits(), 0, ManagedFrames(memorySize))
      ensures panicked <==> forall f: FrameNumber :: Managed(memorySize, f) ==> Used(Bits(), f)
      ensures !panicked ==>
        && r < FRAMES && Managed(memorySize, r) && !Used(Bits(), r) && forall f: FrameNumber :: f < r ==> Used(Bits(), f)
    {
      AllManaged(memorySize);
      var i := 0;
      while i < memorySize / 4096 / 32
        invariant 0 <= i <= memorySize / 4096 / 32
        invariant forall f: FrameNumber :: f < 32 * i ==> Used(Bits(), f)
      {
        if framesBmp[i] != FULL {
          for j := 0 to 32
            invariant forall k :: 0 <= k < j ==> framesBmp[i][k]
          {
            if !framesBmp[i][j] {
              assert !Used(Bits(), 32 * i + j);
              return false, 32 * i + j;
            }
          }
          // No word but 0xFFFFFFFF lets the inner scan fall through.
          assert false;
        }
        i := i + 1;
      }
      return true, 0xFFFF_FFFF;
    }

    // frame_alloc: the least free frame of those managed is marked and its
    // address returned; without one it panics.
    method FrameAlloc() returns (panicked: bool, addr: Address)
      requires Valid()
      modifies framesBmp
      ensures panicked <==> FirstFree(old(Bits()), 0, ManagedFrames(memorySize)) == ManagedFrames(memorySize)
      ensures panicked ==> Bits() == old(Bits())
      ensures !panicked ==> addr == 4096 * FirstFree(old(Bits()), 0, ManagedFrames(memorySize))
      ensures !panicked ==> Bits() == Mark(old(Bits()), addr / 4096, true)
      ensures panicked <==> forall f: FrameNumber :: Managed(memorySize, f) ==> Used(old(Bits()), f)
      ensures !panicked ==>
        && addr % 4096 == 0 && Managed(memorySize, addr / 4096) && !Used(old(Bits()), addr / 4096)
        && forall f: FrameNumber :: f < addr / 4096 ==> Used(old(Bits()), f)
    {
      AllManaged(memorySize);
      var p, ff := FrameBmpGetFirst();
      if p {
        return true, 0;
      }
      FrameBmpSet(ff * 0x1000);
      return false, ff * 0x1000;
    }

    method FrameFree(addr: Address)
      requires Valid()
      modifies framesBmp
      ensures Bits() == Mark(old(Bits()), addr / 4096, false)
    {
      FrameBmpReset(addr);
    }

    // Marks `n` frames from the one holding `addr`, the loop body of lines 72 and 84.
    method MarkRun(addr: Address, n: nat)
      requires Valid()
      modifies framesBmp
      ensures forall f: FrameNumber :: Used(Bits(), f) <==> Used(old(Bits()), f) || InRun(addr, n, f)
    {
      for frame := 0 to n
        invariant forall f: FrameNumber :: Used(Bits(), f) <==> Used(old(Bits()), f) || InRun(addr, frame, f)
      {
        FrameBmpSet((addr + frame * 4096) % WORD);
        forall f: FrameNumber ensures InRun(addr, frame + 1, f) <==> InRun(addr, frame, f) || f == RunFrame(addr, frame) {
          if f == RunFrame(addr, frame) { assert InRun(addr, frame + 1, f); }
        }
      }
    }

    // Line 56.
    method ClearBitmap()
      requires framesBmp.Length == BITMAP_WORDS && memorySize == 0
      modifies framesBmp
      ensures forall f: FrameNumber :: !Used(Bits(), f)
    {
      for w := 0 to framesBmp.Length
        invariant forall k :: 0 <= k < w ==> framesBmp[k] == seq(32, _ => false)
      {
        framesBmp[w] := seq(32, _ => false);
      }
    }

    // Lines 58 to 76; `mmap` is the entry the loop ends on.
    method ReserveRegions(regions: seq<MemoryRegion>) returns (mmap: MemoryRegion)
      requires Valid() && memorySize == 0 && |regions| > 0 && AvailableBytes(regions) <= WORD
      requires forall f: FrameNumber :: !Used(Bits(), f)
      modifies this, framesBmp
      ensures Valid() && memorySize == AvailableBytes(regions) && mmap == regions[|regions| - 1]
      ensures forall f: FrameNumber :: Used(Bits(), f) <==> InMap(regions, f)
    {
      mmap := regions[0];
      var i := 0;
      while i < |regions|
        invariant 0 <= i <= |regions|
        invariant memorySize == AvailableBytes(regions[..i]) <= WORD
        invariant i > 0 ==> mmap == regions[i - 1]
        invariant forall f: FrameNumber :: Used(Bits(), f) <==> InMap(regions[..i], f)
      {
        mmap := regions[i];
        AvailableBytesSnoc(regions, i);
        InMapSnoc(regions, i);
        if mmap.addrHi == 0 {
          if mmap.kind == MULTIBOOT_MEMORY_AVAILABLE {
            memorySize := memorySize + mmap.lenLo;
          } else {
            MarkRun(mmap.addrLo, mmap.lenLo / 4096);
          }
        }
        assert forall f: FrameNumber :: Used(Bits(), f) <==> InMap(regions[..i], f) || RegionMarks(mmap, f);
        i := i + 1;
      }
      assert regions[..i] == regions;
    }

    // Lines 89 to 95.
    method ReserveEvenStarts(regions: seq<MemoryRegion>)
      requires Valid()
      modifies framesBmp
      ensures forall f: FrameNumber :: Used(Bits(), f) <==> Used(old(Bits()), f) || StartsEvenRegion(regions, f)
    {
      var i := 0;
      while i < |regions|
        invariant 0 <= i <= |regions|
        invariant forall f: FrameNumber :: Used(Bits(), f) <==> Used(old(Bits()), f) || StartsEvenRegion(regions[..i], f)
      {
        EvenSnoc(regions, i);
        if regions[i].kind % 2 == 0 {
          FrameBmpSet(regions[i].addrLo);
        }
        i := i + 1;
      }
      assert regions[..i] == regions;
    }

    // pmm_init on the boot loader's memory map. `panicked` is the panic of the
    // frame_alloc call in the middle. The kernel loop starts at the region the
    // first loop ended on, as the code does.
    method PmmInit(regions: seq<MemoryRegion>, endOfKernel: Address) returns (panicked: bool)
      requires framesBmp.Length == BITMAP_WORDS
      requires |regions| > 0 && AvailableBytes(regions) <= WORD
      modifies this, framesBmp
      ensures Valid() && memorySize == AvailableBytes(regions)
      ensures panicked <==> forall f: FrameNumber :: f < ManagedFrames(memorySize) ==> MapOrKernel(regions, endOfKernel, f)
      ensures !panicked ==> exists first: FrameNumber :: InitialReservation(Bits(), regions, endOfKernel, first)
    {
      memorySize := 0;
      ClearBitmap();
      var mmap := ReserveRegions(regions);
      MarkRun(mmap.addrLo, KernelFrames(endOfKernel));
      assert forall f: FrameNumber :: Used(Bits(), f) <==> MapOrKernel(regions, endOfKernel, f);
      ghost var first := FirstFree(Bits(), 0, ManagedFrames(memorySize));
      var addr;
      panicked, addr := FrameAlloc();
      if !panicked {
        assert forall f: FrameNumber :: Used(Bits(), f) <==> MapOrKernel(regions, endOfKernel, f) || f == first;
        ReserveEvenStarts(regions);
        assert InitialReservation(Bits(), regions, endOfKernel, first);
      }
    }
  }

  // ----- what pmm_init reserves -----

  // An entry of the memory map. Bit 0 of `kind` is MULTIBOOT_MEMORY_AVAILABLE.
  datatype MemoryRegion = MemoryRegion(addrLo: Address, addrHi: Address, lenLo: Address, kind: nat)

  function AvailableBytes(regions: seq<MemoryRegion>): nat {
    if regions == [] then 0
    else
      var last := regions[|regions| - 1];
      AvailableBytes(regions[..|regions| - 1])
      + if last.addrHi == 0 && last.kind == MULTIBOOT_MEMORY_AVAILABLE then last.lenLo else 0
  }

  lemma AvailableBytesSnoc(regions: seq<MemoryRegion>, i: nat)
    requires i < |regions|
    ensures AvailableBytes(regions[..i + 1]) ==
      AvailableBytes(regions[..i])
      + (if regions[i].addrHi == 0 && regions[i].kind == MULTIBOOT_MEMORY_AVAILABLE then regions[i].lenLo else 0)
    ensures AvailableBytes(regions[..i + 1]) <= AvailableBytes(regions)
    decreases |regions| - i
  {
    assert regions[..i + 1][..i] == regions[..i];
    if i + 1 < |regions| {
      AvailableBytesSnoc(regions, i + 1);
    } else {
      assert regions[..i + 1] == regions;
    }
  }

  // The frame marked by iteration `k` of a marking loop, with the 32-bit sum of the code.
  function RunFrame(addr: Address, k: nat): FrameNumber {
    (addr + k * 4096) % WORD / 4096
  }

  ghost predicate InRun(addr: Address, n: nat, f: FrameNumber) {
    exists k: nat :: k < n && f == RunFrame(addr, k)
  }

  ghost predicate InMap(regions: seq<MemoryRegion>, f: FrameNumber) {
    exists i :: 0 <= i < |regions| && RegionMarks(regions[i], f)
  }

  lemma InMapSnoc(regions: seq<MemoryRegion>, i: nat)
    requires i < |regions|
    ensures forall f: FrameNumber :: InMap(regions[..i + 1], f) <==> InMap(regions[..i], f) || RegionMarks(regions[i], f)
  {
    var s, t := regions[..i], regions[..i + 1];
    assert t[i] == regions[i];
    forall f: FrameNumber | InMap(s, f) ensures InMap(t, f) {
      var k :| 0 <= k < |s| && RegionMarks(s[k], f);
      assert t[k] == s[k];
    }
    forall f: FrameNumber | InMap(t, f) ensures InMap(s, f) || RegionMarks(regions[i], f) {
      var k :| 0 <= k < |t| && RegionMarks(t[k], f);
      assert k < i ==> s[k] == t[k];
    }
  }

  lemma EvenSnoc(regions: seq<MemoryRegion>, i: nat)
    requires i < |regions|
    ensures forall f: FrameNumber :: StartsEvenRegion(regions[..i + 1], f) <==>
      StartsEvenRegion(regions[..i], f) || (regions[i].kind % 2 == 0 && regions[i].addrLo / 4096 == f)
  {
    var s, t := regions[..i], regions[..i + 1];
    assert t[i] == regions[i];
    forall f: FrameNumber | StartsEvenRegion(s, f) ensures StartsEvenRegion(t, f) {
      var k :| 0 <= k < |s| && s[k].kind % 2 == 0 && s[k].addrLo / 4096 == f;
      assert t[k] == s[k];
    }
    forall f: FrameNumber | StartsEvenRegion(t, f)
      ensures StartsEvenRegion(s, f) || (regions[i].kind % 2 == 0 && regions[i].addrLo / 4096 == f)
    {
      var k :| 0 <= k < |t| && t[k].kind % 2 == 0 && t[k].addrLo / 4096 == f;
      assert k < i ==> s[k] == t[k];
    }
  }

  ghost predicate RegionMarks(r: MemoryRegion, f: FrameNumber) {
    r.addrHi == 0 && r.kind != MULTIBOOT_MEMORY_AVAILABLE && InRun(r.addrLo, r.lenLo / 4096, f)
  }

  ghost predicate StartsEvenRegion(regions: seq<MemoryRegion>, f: FrameNumber) {
    exists i :: 0 <= i < |regions| && regions[i].kind % 2 == 0 && regions[i].addrLo / 4096 == f
  }

  // kernel_size is the unsigned difference of end_of_kernel and 1 MiB.
  function KernelFrames(endOfKernel: Address): nat {
    (endOfKernel - 1024 * 1024) % WORD / 4096
  }

  ghost predicate MapOrKernel(regions: seq<MemoryRegion>, endOfKernel: Address, f: FrameNumber)
    requires |regions| > 0
  {
    InMap(regions, f) || InRun(regions[|regions| - 1].addrLo, KernelFrames(endOfKernel), f)
  }

  // The frames in use after pmm_init: those of the two marking loops, the least
  // frame left by them, and the first frame of each region with an even type.
  ghost predicate InitialReservation(b: Bitmap, regions: seq<MemoryRegion>, endOfKernel: Address, first: FrameNumber)
    requires |regions| > 0
  {
    && !MapOrKernel(regions, endOfKernel, first)
    && (forall f: FrameNumber :: f < first ==> MapOrKernel(regions, endOfKernel, f))
    && forall f: FrameNumber ::
      Used(b, f) <==> MapOrKernel(regions, endOfKernel, f) || f == first || StartsEvenRegion(regions, f)
  }

  lemma RunIsInterval(addr: Address, n: nat, f: FrameNumber)
    requires addr + n * 4096 <= WORD
    ensures InRun(addr, n, f) <==> addr / 4096 <= f < addr / 4096 + n
  {
    if addr / 4096 <= f < addr / 4096 + n {
      assert f == RunFrame(addr, f - addr / 4096);
    }
  }

  // A marking loop covers `n` consecutive frames, wrapping at 4 GiB.
  lemma RunIsCyclicInterval(addr: Address, n: nat, f: FrameNumber)
    requires n <= FRAMES
    ensures InRun(addr, n, f) <==> (f - addr / 4096) % FRAMES < n
  {
    var k := (f - addr / 4096) % FRAMES;
    RunFrameIs(addr, k, f);
    if InRun(addr, n, f) {
      var i: nat :| i < n && f == RunFrame(addr, i);
      RunFrameIs(addr, i, f);
    }
  }

  lemma RunFrameIs(addr: Address, k: nat, f: FrameNumber)
    requires k < FRAMES
    ensures RunFrame(addr, k) == f <==> (f - addr / 4096) % FRAMES == k
  {
    var a := addr / 4096;
    assert RunFrame(addr, k) == if a + k < FRAMES then a + k else a + k - FRAMES;
    assert (f - a) % FRAMES == if f >= a then f - a else f - a + FRAMES;
  }

  // A frame that lies wholly inside a region.
  predicate WholeFrameOf(r: MemoryRegion, f: FrameNumber) {
    r.addrLo <= 4096 * f && 4096 * f + 4096 <= r.addrLo + r.lenLo
  }

  // Every whole frame of a reserved region below 4 GiB is marked by the first
  // loop exactly when the offsets of the region's start and length within a
  // frame sum to less than a frame, or the region is shorter than a frame.
  lemma WholeFramesMarked(r: MemoryRegion)
    requires r.addrHi == 0 && r.kind != MULTIBOOT_MEMORY_AVAILABLE
    requires r.addrLo + r.lenLo <= WORD
    ensures (forall f: FrameNumber :: WholeFrameOf(r, f) ==> RegionMarks(r, f))
      <==> r.addrLo % 4096 + r.lenLo % 4096 < 4096 || r.lenLo < 4096
  {
    var q, n := r.addrLo / 4096, r.lenLo / 4096;
    forall f: FrameNumber ensures RegionMarks(r, f) <==> q <= f < q + n {
      RunIsInterval(r.addrLo, n, f);
    }
    if r.addrLo % 4096 + r.lenLo % 4096 >= 4096 && r.lenLo >= 4096 {
      assert WholeFrameOf(r, q + n) && !RegionMarks(r, q + n);
    }
  }

  // A region that is available, or above 4 GiB, has no frame marked by it.
  lemma UnreservedMarksNothing(r: MemoryRegion, f: FrameNumber)
    requires r.kind == 1 || r.addrHi > 0
    ensures !RegionMarks(r, f)
  {
  }

  // The memory size of two maps together is the sum, and that of one entry is
  // its length if it is available below 4 GiB.
  lemma {:induction false} AvailableBytesAdd(a: seq<MemoryRegion>, b: seq<MemoryRegion>)
    ensures AvailableBytes(a + b) == AvailableBytes(a) + AvailableBytes(b)
    ensures |a| == 1 ==> AvailableBytes(a) == if a[0].kind == 1 && a[0].addrHi == 0 then a[0].lenLo else 0
    decreases |b|
  {
    if |a| == 1 {
      assert AvailableBytes(a[..0]) == 0;
    }
    if b == [] {
      assert a + b == a;
    } else {
      var n := |b| - 1;
      AvailableBytesAdd(a, b[..n]);
      assert (a + b)[..|a| + n] == a + b[..n];
    }
  }

  // The last loop means reserved regions, but tests a bit of the type: of the
  // types of the Multiboot specification it marks the first frame of 2
  // (reserved) and 4 (to be preserved), not of 3 (ACPI) and 5 (defective).
  lemma EvenStarts(r: MemoryRegion)
    requires 1 <= r.kind <= 5
    ensures StartsEvenRegion([r], r.addrLo / 4096) <==> r.kind == 2 || r.kind == 4
  {
    if r.kind == 2 || r.kind == 4 {
      assert [r][0].kind % 2 == 0 && [r][0].addrLo / 4096 == r.addrLo / 4096;
    }
  }

  // After pmm_init the kernel image is reserved if it ends on a frame boundary
  // and the last entry of the map starts at 1 MiB.
  lemma KernelImageReserved(b: Bitmap, regions: seq<MemoryRegion>, endOfKernel: Address, first: FrameNumber, f: FrameNumber)
    requires |regions| > 0 && InitialReservation(b, regions, endOfKernel, first)
    requires regions[|regions| - 1].addrLo == 0x10_0000 <= endOfKernel && endOfKernel % 4096 == 0
    requires 0x10_0000 <= 4096 * f < endOfKernel
    ensures Used(b, f)
  {
    KernelImageMarked(0x10_0000, endOfKernel);
    assert InRun(0x10_0000, KernelFrames(endOfKernel), f);
  }

  // The kernel image lies from 1 MiB up to `endOfKernel`. The kernel loop marks
  // every frame of it, the last partial one included, exactly when there is no
  // image, or it ends on a frame boundary and the last entry of the memory map
  // starts in the frame of 1 MiB.
  lemma KernelImageMarked(lastAddr: Address, endOfKernel: Address)
    requires 1024 * 1024 <= endOfKernel
    ensures (forall f: FrameNumber :: 256 <= f && 4096 * f < endOfKernel
                ==> InRun(lastAddr, KernelFrames(endOfKernel), f))
      <==> endOfKernel == 1024 * 1024 || (endOfKernel % 4096 == 0 && lastAddr / 4096 == 256)
  {
    var q, n := lastAddr / 4096, KernelFrames(endOfKernel);
    assert n == endOfKernel / 4096 - 256;
    forall f: FrameNumber ensures InRun(lastAddr, n, f) <==> (f - q) % FRAMES < n {
      RunIsCyclicInterval(lastAddr, n, f);
    }
    if endOfKernel > 1024 * 1024 && (endOfKernel % 4096 != 0 || q != 256) {
      // A frame of the image, which has `all` of them, that the loop misses.
      var all := if endOfKernel % 4096 == 0 then n else n + 1;
      var missed: FrameNumber := if 256 < q < 256 + all then q - 1 else 255 + all;
      assert 256 <= missed && 4096 * missed < endOfKernel;
      assert !InRun(lastAddr, n, missed);
    }
  }

  // ----- runs of frame_alloc and frame_free -----

  datatype FrameOp = AllocOp | FreeOp(addr: Address)

  // The bitmap after `ops`; an allocation with no free frame panics and changes nothing.
  function After(b: Bitmap, limit: nat, ops: seq<FrameOp>): Bitmap
    requires limit <= FRAMES
  {
    if ops == [] then b
    else
      var before := After(b, limit, ops[..|ops| - 1]);
      match ops[|ops| - 1]
      case FreeOp(addr) => Mark(before, addr / 4096, false)
      case AllocOp =>
        var f := FirstFree(before, 0, limit);
        if f == limit then before else Mark(before, f, true)
  }

  // Operation `j` is an allocation that returns frame `f`.
  predicate HandsOut(b: Bitmap, limit: nat, ops: seq<FrameOp>, j: nat, f: FrameNumber)
    requires limit <= FRAMES && j < |ops|
  {
    ops[j] == AllocOp && f < limit && FirstFree(After(b, limit, ops[..j]), 0, limit) == f
  }

  predicate FreesFrame(op: FrameOp, f: FrameNumber) {
    op.FreeOp? && op.addr / 4096 == f
  }

  // A frame in use after `i` operations stays in use until it is freed.
  lemma {:induction false} UsedUntilFreed(b: Bitmap, limit: nat, ops: seq<FrameOp>, i: nat, j: nat, f: FrameNumber)
    requires limit <= FRAMES && i <= j <= |ops|
    requires Used(After(b, limit, ops[..i]), f)
    requires forall k :: i <= k < j ==> !FreesFrame(ops[k], f)
    ensures Used(After(b, limit, ops[..j]), f)
  {
    if i < j {
      UsedUntilFreed(b, limit, ops, i, j - 1, f);
      assert ops[..j][..j - 1] == ops[..j - 1];
    }
  }

  // No run returns a frame that is in use: neither one reserved at the start
  // (i = 0) nor one handed out by an earlier operation.
  lemma {:induction false} NoLiveFrameHandedOut(b: Bitmap, limit: nat, ops: seq<FrameOp>, i: nat, j: nat, f: FrameNumber)
    requires limit <= FRAMES && i <= j < |ops|
    requires Used(After(b, limit, ops[..i]), f) || (i > 0 && HandsOut(b, limit, ops, i - 1, f))
    requires HandsOut(b, limit, ops, j, f)
    ensures exists k :: i <= k < j && FreesFrame(ops[k], f)
  {
    if i > 0 && HandsOut(b, limit, ops, i - 1, f) {
      assert ops[..i][..i - 1] == ops[..i - 1];
    }
    if forall k :: i <= k < j ==> !FreesFrame(ops[k], f) {
      UsedUntilFreed(b, limit, ops, i, j, f);
    }
  }
}
