/** The physical frame allocator of kernel/memory_manager.cpp. */
module MemoryManager {
  import opened Division
  import opened Words

  const BYTES_PER_FRAME: nat := 4096
  const FRAME_COUNT: nat := 33_554_432
  const BITS_PER_MAP_LINE: nat := 64
  const LINE_COUNT: nat := 524_288
  const HEAP_FRAMES: nat := 64 * 512

  type MapLine = line: nat | line < Pow2(BITS_PER_MAP_LINE) witness 0

  /** Outcome of Allocate. PastBitmap: the scan would read a line behind the end of the bitmap. */
  datatype Allocation = Block(start: nat) | NoEnoughMemory | PastBitmap

  ghost function Run(start: nat, n: nat): (run: set<nat>)
    ensures forall f: nat :: f in run <==> start <= f < start + n
  {
    if n == 0 then {} else Run(start, n - 1) + {start + n - 1}
  }

  ghost predicate FreeRun(used: set<nat>, start: nat, n: nat) {
    forall f | start <= f < start + n :: f !in used
  }

  /** First fit, stated without the scan: the lowest start of a free run inside the range. */
  ghost predicate FirstFit(used: set<nat>, begin: nat, end: nat, n: nat, r: Allocation) {
    match r
    case Block(s) =>
      (n == 0 && s == begin) ||
      (n > 0 && begin <= s && s + n <= Min(end, FRAME_COUNT) && FreeRun(used, s, n) &&
       forall t | begin <= t < s :: !FreeRun(used, t, n))
    case NoEnoughMemory =>
      n > 0 && (end <= FRAME_COUNT || end <= begin) &&
      forall t | begin <= t && t + n <= end :: !FreeRun(used, t, n)
    case PastBitmap =>
      n > 0 && end > FRAME_COUNT && begin < end &&
      forall t | begin <= t && t + n <= FRAME_COUNT :: !FreeRun(used, t, n)
  }

  /** What Allocate(1) answers: the lowest unmarked frame of the range. */
  ghost function OneFrame(used: set<nat>, begin: nat, end: nat): (r: Allocation)
    ensures FirstFit(used, begin, end, 1, r)
    decreases if begin < end then end - begin else 0
  {
    if begin >= end then NoEnoughMemory
    else if begin >= FRAME_COUNT then PastBitmap
    else if begin in used then
      assert !FreeRun(used, begin, 1);
      OneFrame(used, begin + 1, end)
    else Block(begin)
  }

  /** A descriptor of the UEFI memory map: IsAvailable is decided from its type. */
  datatype MemoryDescriptor = MemoryDescriptor(memoryType: nat, physicalStart: nat, numberOfPages: nat) {
    function PhysicalEnd(): nat {
      physicalStart + numberOfPages * BYTES_PER_FRAME
    }

    predicate IsAvailable() {
      memoryType == EFI_BOOT_SERVICES_CODE || memoryType == EFI_BOOT_SERVICES_DATA ||
      memoryType == EFI_CONVENTIONAL_MEMORY
    }

    predicate Covers(frame: nat) {
      physicalStart <= frame * BYTES_PER_FRAME < PhysicalEnd()
    }
  }

  const EFI_BOOT_SERVICES_CODE: nat := 3
  const EFI_BOOT_SERVICES_DATA: nat := 4
  const EFI_CONVENTIONAL_MEMORY: nat := 7

  /** Sorted, non-overlapping, page-aligned and below 128 GiB. */
  ghost predicate WellFormedMap(descs: seq<MemoryDescriptor>) {
    && (forall i | 0 <= i < |descs| ::
          descs[i].physicalStart % BYTES_PER_FRAME == 0 && descs[i].PhysicalEnd() <= FRAME_COUNT * BYTES_PER_FRAME)
    && (forall i, j | 0 <= i < j < |descs| :: descs[i].PhysicalEnd() <= descs[j].physicalStart)
  }

  ghost predicate InAvailable(descs: seq<MemoryDescriptor>, frame: nat) {
    exists i :: 0 <= i < |descs| && descs[i].IsAvailable() && descs[i].Covers(frame)
  }

  /** End address of the last accepted descriptor (0 if there is none). */
  ghost function AvailableEnd(descs: seq<MemoryDescriptor>): nat {
    if descs == [] then 0
    else if descs[|descs| - 1].IsAvailable() then descs[|descs| - 1].PhysicalEnd()
    else AvailableEnd(descs[..|descs| - 1])
  }

  ghost function MapEnd(descs: seq<MemoryDescriptor>): nat {
    if descs == [] then 0 else descs[|descs| - 1].PhysicalEnd()
  }

  class BitmapMemoryManager {
    var allocMap: array<MapLine>
    var rangeBegin: nat
    var rangeEnd: nat

    ghost predicate Valid()
      reads this`allocMap
    {
      allocMap.Length == LINE_COUNT
    }

    ghost function Allocated(): (s: set<nat>)
      reads this`allocMap, allocMap
      requires Valid()
    {
      set f | 0 <= f < FRAME_COUNT && GetBit(f)
    }

    constructor ()
      ensures Valid() && fresh(allocMap)
      ensures Allocated() == {} && rangeBegin == 0 && rangeEnd * 4096 == 128 * 0x4000_0000
    {
      allocMap := new MapLine[LINE_COUNT](_ => 0);
      rangeBegin, rangeEnd := 0, FRAME_COUNT;
      new;
      forall f: nat | f < FRAME_COUNT
        ensures !GetBit(f)
      {
        Pow2Monotone(f % BITS_PER_MAP_LINE, BITS_PER_MAP_LINE);
        MaskTestsBit(BITS_PER_MAP_LINE, 0, f % BITS_PER_MAP_LINE);
        ZeroHasNoBits(f % BITS_PER_MAP_LINE);
      }
    }

    predicate GetBit(frame: nat)
      reads this`allocMap, allocMap
      requires Valid() && frame < FRAME_COUNT
    {
      TestBit(BITS_PER_MAP_LINE, allocMap[frame / BITS_PER_MAP_LINE], frame % BITS_PER_MAP_LINE)
    }

    method SetBit(frame: nat, used: bool)
      requires Valid() && frame < FRAME_COUNT
      modifies allocMap
      ensures Allocated() == if used then old(Allocated()) + {frame} else old(Allocated()) - {frame}
    {
      hide Pow2;
      var line, bit := frame / BITS_PER_MAP_LINE, frame % BITS_PER_MAP_LINE;
      if used {
        allocMap[line] := Words.SetBit(BITS_PER_MAP_LINE, allocMap[line], bit);
      } else {
        allocMap[line] := ClearBit(BITS_PER_MAP_LINE, allocMap[line], bit);
      }
      forall f: nat | f < FRAME_COUNT
        ensures GetBit(f) <==> if f == frame then used else old(GetBit(f))
      {
        if used {
          SetBitSetsOneBit(BITS_PER_MAP_LINE, old(allocMap[line]), bit, f % BITS_PER_MAP_LINE);
        } else {
          ClearBitClearsOneBit(BITS_PER_MAP_LINE, old(allocMap[line]), bit, f % BITS_PER_MAP_LINE);
        }
      }
    }

    method MarkAllocated(start: nat, n: nat)
      requires Valid() && (n > 0 ==> start + n <= FRAME_COUNT)
      modifies allocMap
      ensures Allocated() == old(Allocated()) + Run(start, n)
    {
      hide Allocated;
      for i := 0 to n
        invariant Allocated() == old(Allocated()) + Run(start, i)
      {
        SetBit(start + i, true);
      }
    }

    method Free(start: nat, n: nat)
      requires Valid() && (n > 0 ==> start + n <= FRAME_COUNT)
      modifies allocMap
      ensures Allocated() == old(Allocated()) - Run(start, n)
    {
      hide Allocated;
      for i := 0 to n
        invariant Allocated() == old(Allocated()) - Run(start, i)
      {
        SetBit(start + i, false);
      }
    }

    method Allocate(n: nat) returns (r: Allocation)
      requires Valid()
      modifies allocMap
      ensures FirstFit(old(Allocated()), rangeBegin, rangeEnd, n, r)
      ensures Allocated() == if r.Block? then old(Allocated()) + Run(r.start, n) else old(Allocated())
    {
      hide GetBit;
      var start := rangeBegin;
      while true
        invariant rangeBegin <= start
        invariant start == rangeBegin || (n > 0 && start <= Min(rangeEnd, FRAME_COUNT))
        invariant forall t | rangeBegin <= t < start :: !FreeRun(Allocated(), t, n)
        invariant Allocated() == old(Allocated())
        decreases rangeEnd - start
      {
        var i := 0;
        while i < n
          invariant i <= n
          invariant i > 0 ==> start + i <= Min(rangeEnd, FRAME_COUNT)
          invariant FreeRun(Allocated(), start, i)
        {
          if start + i >= rangeEnd {
            return NoEnoughMemory;
          }
          if start + i >= FRAME_COUNT {
            return PastBitmap;
          }
          if GetBit(start + i) {
            break;
          }
          i := i + 1;
        }
        if i == n {
          MarkAllocated(start, n);
          return Block(start);
        }
        assert start + i in Allocated();
        start := start + i + 1;
      }
    }

    /** The descriptor loop of InitializeMemoryManager. */
    method ReserveUnavailable(descs: seq<MemoryDescriptor>) returns (availableEnd: nat)
      requires Valid() && Allocated() == {} && WellFormedMap(descs)
      modifies allocMap
      ensures availableEnd == AvailableEnd(descs)
      ensures Allocated() == Reserved(descs)
    {
      hide Run, Reserved, InAvailable, GetBit;
      NothingReserved();
      availableEnd := 0;
      assert descs[..0] == [];
      for i := 0 to |descs|
        invariant availableEnd == AvailableEnd(descs[..i])
        invariant Allocated() == Reserved(descs[..i])
      {
        var desc := descs[i];
        assert descs[..i + 1][..i] == descs[..i];
        AvailableEndBounds(descs, i);
        ReservedStep(descs, i);
        if availableEnd < desc.physicalStart {
          MarkAllocated(availableEnd / BYTES_PER_FRAME, (desc.physicalStart - availableEnd) / BYTES_PER_FRAME);
        }
        if desc.IsAvailable() {
          availableEnd := desc.PhysicalEnd();
        } else {
          MarkAllocated(desc.physicalStart / BYTES_PER_FRAME,
                        desc.numberOfPages * BYTES_PER_FRAME / BYTES_PER_FRAME);
        }
      }
      assert descs[..|descs|] == descs;
    }
  }

  /** Frames below the end of the map that no accepted descriptor covers. */
  ghost function Reserved(descs: seq<MemoryDescriptor>): set<nat> {
    set f | 0 <= f < FRAME_COUNT && f * BYTES_PER_FRAME < MapEnd(descs) && !InAvailable(descs, f)
  }

  lemma NothingReserved()
    ensures Reserved([]) == {}
  {
  }

  lemma InAvailableStep(descs: seq<MemoryDescriptor>, i: nat, f: nat)
    requires i < |descs|
    ensures InAvailable(descs[..i + 1], f) <==>
              InAvailable(descs[..i], f) || (descs[i].IsAvailable() && descs[i].Covers(f))
  {
    if InAvailable(descs[..i], f) {
      var k :| 0 <= k < i && descs[..i][k].IsAvailable() && descs[..i][k].Covers(f);
      assert descs[..i + 1][k] == descs[..i][k];
    }
    if descs[i].IsAvailable() && descs[i].Covers(f) {
      assert descs[..i + 1][i] == descs[i];
    }
    if InAvailable(descs[..i + 1], f) {
      var k :| 0 <= k < i + 1 && descs[..i + 1][k].IsAvailable() && descs[..i + 1][k].Covers(f);
      if k < i {
        assert descs[..i][k] == descs[..i + 1][k];
      }
    }
  }

  lemma {:induction false} AvailableEndBounds(descs: seq<MemoryDescriptor>, n: nat)
    requires WellFormedMap(descs) && n <= |descs|
    ensures AvailableEnd(descs[..n]) % BYTES_PER_FRAME == 0
    ensures AvailableEnd(descs[..n]) <= MapEnd(descs[..n]) <= FRAME_COUNT * BYTES_PER_FRAME
    ensures forall f: nat | InAvailable(descs[..n], f) :: f * BYTES_PER_FRAME < AvailableEnd(descs[..n])
  {
    if n > 0 {
      AvailableEndBounds(descs, n - 1);
      assert descs[..n][..n - 1] == descs[..n - 1];
      forall f: nat | InAvailable(descs[..n], f)
        ensures f * BYTES_PER_FRAME < AvailableEnd(descs[..n])
      {
        InAvailableStep(descs, n - 1, f);
      }
    }
  }

  /** Frames in a byte range between page-aligned addresses. */
  ghost function Frames(start: nat, end: nat): (run: set<nat>)
    requires start % BYTES_PER_FRAME == 0 && end % BYTES_PER_FRAME == 0
    ensures forall f: nat :: f in run <==> start <= f * BYTES_PER_FRAME < end
  {
    if start < end then Run(start / BYTES_PER_FRAME, (end - start) / BYTES_PER_FRAME) else {}
  }

  /** One descriptor reserves the gap since the last accepted descriptor, and itself unless accepted. */
  lemma ReservedStep(descs: seq<MemoryDescriptor>, i: nat)
    requires WellFormedMap(descs) && i < |descs|
    requires AvailableEnd(descs[..i]) % BYTES_PER_FRAME == 0
    ensures Reserved(descs[..i + 1]) ==
              Reserved(descs[..i]) + Frames(AvailableEnd(descs[..i]), descs[i].physicalStart) +
              if descs[i].IsAvailable() then {} else Frames(descs[i].physicalStart, descs[i].PhysicalEnd())
  {
    hide Frames;
    AvailableEndBounds(descs, i);
    var step := Reserved(descs[..i]) + Frames(AvailableEnd(descs[..i]), descs[i].physicalStart) +
                if descs[i].IsAvailable() then {} else Frames(descs[i].physicalStart, descs[i].PhysicalEnd());
    assert MapEnd(descs[..i]) <= descs[i].physicalStart;
    forall f: nat
      ensures f in Reserved(descs[..i + 1]) <==> f in step
    {
      InAvailableStep(descs, i, f);
      if f * BYTES_PER_FRAME < MapEnd(descs[..i]) && AvailableEnd(descs[..i]) <= f * BYTES_PER_FRAME {
        assert f in Reserved(descs[..i]);
      }
    }
    assert forall f | f in Reserved(descs[..i + 1]) :: f in step;
    assert forall f | f in step :: f in Reserved(descs[..i + 1]);
  }

  /** Boot-time set-up. The range end handed over is a byte address, although the range counts frames. */
  method InitializeMemoryManager(descs: seq<MemoryDescriptor>)
    returns (manager: BitmapMemoryManager, heap: Allocation)
    requires WellFormedMap(descs)
    ensures fresh(manager) && fresh(manager.allocMap) && manager.Valid()
    ensures manager.rangeBegin == 1 && manager.rangeEnd == AvailableEnd(descs)
    ensures FirstFit(Reserved(descs), 1, AvailableEnd(descs), 64 * 512, heap)
    ensures manager.Allocated() == Reserved(descs) + if heap.Block? then Run(heap.start, HEAP_FRAMES) else {}
  {
    manager := new BitmapMemoryManager();
    var availableEnd := manager.ReserveUnavailable(descs);
    manager.rangeBegin, manager.rangeEnd := 1, availableEnd;
    heap := manager.Allocate(HEAP_FRAMES);
  }

  /** A block of memory that is free once the boot services have ended (types 3, 4 and 7), and an address in it. */
  predicate UsableBlock(memoryType: nat, start: nat, pages: nat, address: nat) {
    (memoryType == 3 || memoryType == 4 || memoryType == 7) && start <= address < start + pages * 4096
  }

  /** A frame below the end of the last accepted descriptor is clear exactly when an accepted descriptor covers it. */
  lemma ClearIffAvailable(descs: seq<MemoryDescriptor>, f: nat)
    requires WellFormedMap(descs)
    requires f < AvailableEnd(descs) / BYTES_PER_FRAME
    ensures f !in Reserved(descs) <==> InAvailable(descs, f)
    ensures InAvailable(descs, f) <==>
              exists k :: 0 <= k < |descs| && UsableBlock(descs[k].memoryType, descs[k].physicalStart,
                                                          descs[k].numberOfPages, f * 4096)
  {
    AvailableEndBounds(descs, |descs|);
    assert descs[..|descs|] == descs;
  }

  /** First fit has exactly one answer, and it is a block exactly when a fitting run exists. */
  lemma FirstFitIsExact(used: set<nat>, begin: nat, end: nat, n: nat, r: Allocation, other: Allocation)
    requires FirstFit(used, begin, end, n, r)
    ensures r.Block? <==> n == 0 || exists t :: begin <= t && t + n <= Min(end, FRAME_COUNT) && FreeRun(used, t, n)
    ensures FirstFit(used, begin, end, n, other) ==> other == r
  {
    if r.Block? && FirstFit(used, begin, end, n, other) {
      if n > 0 {
        assert FreeRun(used, r.start, n);
        assert other.Block? && FreeRun(used, other.start, n);
      }
    }
  }

  /**
   * With the byte address as range end, a block handed out after boot consists of available frames exactly when it
   * ends below the last accepted descriptor's end, and that is so exactly when a free run of that length is left there.
   */
  lemma BlockIsRealMemory(descs: seq<MemoryDescriptor>, used: set<nat>, n: nat, r: Allocation)
    requires WellFormedMap(descs) && Reserved(descs) <= used && n > 0
    requires FirstFit(used, 1, AvailableEnd(descs), n, r) && r.Block?
    ensures (forall f | f in Run(r.start, n) :: InAvailable(descs, f)) <==>
              (r.start + n) * BYTES_PER_FRAME <= AvailableEnd(descs)
    ensures (r.start + n) * BYTES_PER_FRAME <= AvailableEnd(descs) <==>
              exists t :: 1 <= t && (t + n) * BYTES_PER_FRAME <= AvailableEnd(descs) && FreeRun(used, t, n)
  {
    assert FreeRun(used, r.start, n);
    if t :| 1 <= t && (t + n) * BYTES_PER_FRAME <= AvailableEnd(descs) && FreeRun(used, t, n) {
      assert r.start <= t;
      forall f | f in Run(r.start, n)
        ensures InAvailable(descs, f)
      {
        assert f !in used;
        ClearIffAvailable(descs, f);
      }
    }
    if forall f | f in Run(r.start, n) :: InAvailable(descs, f) {
      LastFrameBelowEnd(descs, r.start + n - 1);
    }
  }

  lemma LastFrameBelowEnd(descs: seq<MemoryDescriptor>, f: nat)
    requires WellFormedMap(descs) && InAvailable(descs, f)
    ensures (f + 1) * BYTES_PER_FRAME <= AvailableEnd(descs)
  {
    var end := AvailableEnd(descs);
    assert end % BYTES_PER_FRAME == 0 && f * BYTES_PER_FRAME < end by {
      AvailableEndBounds(descs, |descs|);
      assert descs[..|descs|] == descs;
    }
    NextFrame(f, end);
  }

  lemma NextFrame(f: nat, end: nat)
    requires end % BYTES_PER_FRAME == 0 && f * BYTES_PER_FRAME < end
    ensures (f + 1) * BYTES_PER_FRAME <= end
  {
  }

  /**
   * Booting with as many available pages as the heap takes: frame 0 is not used, so the heap gets one frame too many.
   */
  lemma PhantomFrameIsHandedOut()
    ensures var descs := [MemoryDescriptor(EFI_CONVENTIONAL_MEMORY, 0, HEAP_FRAMES)];
            && WellFormedMap(descs)
            && FirstFit(Reserved(descs), 1, AvailableEnd(descs), HEAP_FRAMES, Block(1))
            && HEAP_FRAMES in Run(1, HEAP_FRAMES) && !InAvailable(descs, HEAP_FRAMES)
  {
    var descs := [MemoryDescriptor(EFI_CONVENTIONAL_MEMORY, 0, HEAP_FRAMES)];
    assert AvailableEnd(descs) == HEAP_FRAMES * BYTES_PER_FRAME;
    assert descs[0].IsAvailable();
    assert forall f: nat | descs[0].Covers(f) :: InAvailable(descs, f);
  }

  /** The allocator's state together with the blocks its callers hold. */
  datatype Heap = Heap(used: set<nat>, live: seq<Live>)
  datatype Live = Live(start: nat, n: nat) {
    ghost function Frames(): set<nat> {
      Run(start, n)
    }
  }

  ghost predicate InLive(live: seq<Live>, f: nat) {
    exists k :: 0 <= k < |live| && f in live[k].Frames()
  }

  ghost predicate AllocateStep(begin: nat, end: nat, h: Heap, n: nat, r: Allocation, h': Heap) {
    && FirstFit(h.used, begin, end, n, r)
    && h' == match r
             case Block(s) => Heap(h.used + Run(s, n), h.live + [Live(s, n)])
             case _ => h
  }

  ghost predicate FreeStep(h: Heap, k: nat, h': Heap) {
    k < |h.live| && h' == Heap(h.used - h.live[k].Frames(), Without(h.live, k))
  }

  ghost predicate HeapStep(begin: nat, end: nat, h: Heap, h': Heap) {
    (exists n, r :: AllocateStep(begin, end, h, n, r, h')) || exists k :: FreeStep(h, k, h')
  }

  ghost predicate HeapRun(begin: nat, end: nat, run: seq<Heap>) {
    |run| > 0 &&
    (|run| == 1 || (HeapRun(begin, end, run[..|run| - 1]) && HeapStep(begin, end, run[|run| - 2], run[|run| - 1])))
  }

  /** Live blocks are disjoint from each other and from the reserved frames, and nothing else is marked. */
  ghost predicate Separated(reserved: set<nat>, h: Heap) {
    && (forall f: nat :: f in h.used <==> f in reserved || InLive(h.live, f))
    && (forall k | 0 <= k < |h.live| :: h.live[k].Frames() !! reserved)
    && (forall j, k | 0 <= j < k < |h.live| :: h.live[j].Frames() !! h.live[k].Frames())
  }

  lemma BlockWasFree(used: set<nat>, begin: nat, end: nat, n: nat, r: Allocation)
    requires FirstFit(used, begin, end, n, r) && r.Block?
    ensures Live(r.start, n).Frames() !! used
  {
  }

  lemma LiveFrames(live: seq<Live>, k: nat)
    requires k < |live|
    ensures forall f | f in live[k].Frames() :: InLive(live, f)
  {
  }

  lemma AllocateKeepsSeparation(reserved: set<nat>, begin: nat, end: nat, h: Heap, n: nat, r: Allocation, h': Heap)
    requires Separated(reserved, h) && AllocateStep(begin, end, h, n, r, h')
    ensures Separated(reserved, h')
  {
    hide InLive, FirstFit, Run;
    if r.Block? {
      var block := Live(r.start, n);
      BlockWasFree(h.used, begin, end, n, r);
      forall k | 0 <= k < |h.live|
        ensures h.live[k].Frames() !! block.Frames()
      {
        LiveFrames(h.live, k);
      }
      forall f: nat
        ensures InLive(h'.live, f) <==> InLive(h.live, f) || f in block.Frames()
      {
        LiveAppended(h.live, block, f);
      }
    }
  }

  lemma LiveAppended(live: seq<Live>, block: Live, f: nat)
    ensures InLive(live + [block], f) <==> InLive(live, f) || f in block.Frames()
  {
    if k :| 0 <= k < |live| && f in live[k].Frames() {
      assert (live + [block])[k] == live[k];
    }
    if f in block.Frames() {
      assert (live + [block])[|live|] == block;
    }
  }

  function Without(live: seq<Live>, k: nat): seq<Live>
    requires k < |live|
  {
    live[..k] + live[k + 1..]
  }

  lemma RemovedFramesAreGone(live: seq<Live>, k: nat, f: nat)
    requires k < |live|
    requires forall i, j | 0 <= i < j < |live| :: live[i].Frames() !! live[j].Frames()
    requires InLive(Without(live, k), f)
    ensures InLive(live, f) && f !in live[k].Frames()
  {
    hide Run;
    var i :| 0 <= i < |Without(live, k)| && f in Without(live, k)[i].Frames();
    if i < k {
      assert live[i].Frames() !! live[k].Frames();
    } else {
      assert Without(live, k)[i] == live[i + 1] && live[k].Frames() !! live[i + 1].Frames();
    }
  }

  lemma OtherFramesStay(live: seq<Live>, k: nat, f: nat)
    requires k < |live| && InLive(live, f) && f !in live[k].Frames()
    ensures InLive(Without(live, k), f)
  {
    var i :| 0 <= i < |live| && f in live[i].Frames();
    assert live[i] == Without(live, k)[if i < k then i else i - 1];
  }

  /** Freeing a block clears its frames and no frame that is reserved or in another block. */
  lemma FreedMark(reserved: set<nat>, h: Heap, k: nat, f: nat)
    requires Separated(reserved, h) && k < |h.live|
    ensures f in h.used && f !in h.live[k].Frames() <==> f in reserved || InLive(Without(h.live, k), f)
  {
    hide InLive, Run, Without;
    if InLive(Without(h.live, k), f) {
      RemovedFramesAreGone(h.live, k, f);
    }
    if InLive(h.live, f) && f !in h.live[k].Frames() {
      OtherFramesStay(h.live, k, f);
    }
    assert h.live[k].Frames() !! reserved;
  }

  lemma FreeKeepsSeparation(reserved: set<nat>, h: Heap, k: nat, h': Heap)
    requires Separated(reserved, h) && FreeStep(h, k, h')
    ensures Separated(reserved, h')
  {
    hide InLive, Run;
    forall f: nat
      ensures f in h'.used <==> f in reserved || InLive(h'.live, f)
    {
      FreedMark(reserved, h, k, f);
    }
    assert forall i | 0 <= i < |h'.live| :: h'.live[i] == h.live[if i < k then i else i + 1];
  }

  lemma StepKeepsSeparation(reserved: set<nat>, begin: nat, end: nat, h: Heap, h': Heap)
    requires Separated(reserved, h) && HeapStep(begin, end, h, h')
    ensures Separated(reserved, h')
  {
    if k :| FreeStep(h, k, h') {
      FreeKeepsSeparation(reserved, h, k, h');
    } else {
      var n, r :| AllocateStep(begin, end, h, n, r, h');
      AllocateKeepsSeparation(reserved, begin, end, h, n, r, h');
    }
  }

  /** Over any run of Allocate, and of Free on live blocks, no two live blocks ever overlap and no mark leaks. */
  lemma {:induction false} LiveBlocksNeverOverlap(reserved: set<nat>, begin: nat, end: nat, run: seq<Heap>)
    requires HeapRun(begin, end, run) && run[0] == Heap(reserved, [])
    ensures Separated(reserved, run[|run| - 1])
  {
    var last := |run| - 1;
    if last > 0 {
      LiveBlocksNeverOverlap(reserved, begin, end, run[..last]);
      StepKeepsSeparation(reserved, begin, end, run[last - 1], run[last]);
    }
  }
}
