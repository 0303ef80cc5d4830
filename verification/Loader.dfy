/** ExecuteFile: the order in which a program's address space is built, used and torn down. */
module Loader {
  import opened MemoryManager
  import opened Paging
  import opened PageTables
  import opened PageMapping
  import opened AddressSpaces
  import opened Execution
  import opened Segments

  const ARGS: ValidAddress := LinearAddress(0, 511, 511, 511, 511, 0xffff)
  const STACK: ValidAddress := LinearAddress(0, 510, 511, 511, 511, 0xffff)

  ghost function LoadElf(s: Vm, root: nat, segments: seq<Segment>): Exec {
    if segments == [] || segments[0].a.Value() < UPPER_HALF then Exec(s, false)
    else LoadSegments(s, root, segments)
  }

  ghost function MapPage(s: Vm, root: nat, a: ValidAddress): Exec {
    var r := SetupPageMap(s, root, 4, a, 1);
    Exec(r.vm, r.ok)
  }

  /** The address space the program runs in, or where building it stopped. */
  ghost function BuildSpace(s: Vm, task: nat, segments: seq<Segment>, argsFit: bool): Exec
    requires task in s.cr3
  {
    var (own, ok) := SetupPml4(s, task);
    if !ok then Exec(own, false)
    else
      var root := own.cr3[task];
      var loaded := LoadElf(own, root, segments);
      if !loaded.ok then loaded
      else
        var args := MapPage(loaded.vm, root, ARGS);
        if !args.ok || !argsFit then Exec(args.vm, false) else MapPage(args.vm, root, STACK)
  }

  /** The program itself leaves page tables and allocator alone; afterwards one slot is cleaned and the PML4 freed. */
  ghost function ExecuteFile(s: Vm, task: nat, segments: seq<Segment>, argsFit: bool): Exec
    requires task in s.cr3
  {
    var built := BuildSpace(s, task, segments, argsFit);
    if !built.ok || segments == [] || task !in built.vm.cr3 then Exec(built.vm, false)
    else Exec(FreePml4(CleanSlot(built.vm, built.vm.cr3[task], segments[0].a.pml4), task), true)
  }

  /** Programs that load into one slot of the upper half other than the last. */
  predicate LoadsInto(segments: seq<Segment>, slot: nat) {
    && 256 <= slot < 511
    && |segments| > 0 && segments[0].memsz > 0
    && forall k | 0 <= k < |segments| :: InSlot(segments[k].AsRequest(), slot)
  }

  // ---------------------------------------------------------------- the phases

  function Requests(segments: seq<Segment>): (requests: seq<Request>)
    ensures |requests| == |segments| && forall k | 0 <= k < |segments| :: requests[k] == segments[k].AsRequest()
  {
    seq(|segments|, k requires 0 <= k < |segments| => segments[k].AsRequest())
  }

  lemma {:induction false} LoadedIsSetupAll(s: Vm, root: nat, segments: seq<Segment>)
    requires LoadSegments(s, root, segments).ok
    ensures LoadSegments(s, root, segments).vm == SetupAll(s, root, Requests(segments))
    decreases |segments|
  {
    if segments != [] {
      LoadedIsSetupAll(s, root, segments[..|segments| - 1]);
      assert Requests(segments)[..|segments| - 1] == Requests(segments[..|segments| - 1]);
    }
  }

  /** After loading, the first page of a segment with pages is mapped. */
  lemma FirstPageIsMapped(s: Vm, root: nat, segments: seq<Segment>, k: nat)
    requires CanLoad(s, root) && OwnHalf(segments) && LoadSegments(s, root, segments).ok
    requires k < |segments| && segments[k].memsz > 0
    ensures Translate(LoadSegments(s, root, segments).vm.memory, root, 4, segments[k].a).Mapped?
  {
    LoadMapsExactly(s, root, segments, segments[k].a);
  }

  /** In a fresh address space the argument page takes three tables and its frame, the stack page one more frame. */
  lemma ArgsAndStackTakeFive(s: Vm, root: nat)
    requires Inv(s) && root in s.level && s.level[root] == 4 && !EntryAt(s.memory, root, 511).present
    requires MapPage(s, root, ARGS).ok && MapPage(MapPage(s, root, ARGS).vm, root, STACK).ok
    ensures |MapPage(MapPage(s, root, ARGS).vm, root, STACK).vm.used| == |s.used| + 5
  {
    hide SetupPageMap, Translate;
    SetupOneTakes(s, root, 4, ARGS);
    ArgsMapsNoStack(s, root);
    StackTakesOne(MapPage(s, root, ARGS).vm, root);
  }

  lemma StackTakesOne(s: Vm, root: nat)
    requires Inv(s) && root in s.level && s.level[root] == 4
    requires Translate(s.memory, root, 4, ARGS).Mapped? && Translate(s.memory, root, 4, STACK).Unmapped?
    requires MapPage(s, root, STACK).ok
    ensures |MapPage(s, root, STACK).vm.used| == |s.used| + 1
  {
    hide SetupPageMap;
    NeighbourLacksOne(s.memory, root, 4, ARGS, STACK);
    SetupOneTakes(s, root, 4, STACK);
  }

  lemma ArgsMapsNoStack(s: Vm, root: nat)
    requires Inv(s) && root in s.level && s.level[root] == 4 && !EntryAt(s.memory, root, 511).present
    requires MapPage(s, root, ARGS).ok
    ensures Inv(MapPage(s, root, ARGS).vm) && root in MapPage(s, root, ARGS).vm.level
    ensures MapPage(s, root, ARGS).vm.level[root] == 4
    ensures Translate(MapPage(s, root, ARGS).vm.memory, root, 4, ARGS).Mapped?
    ensures Translate(MapPage(s, root, ARGS).vm.memory, root, 4, STACK).Unmapped?
  {
    hide Inv;
    SetupGrows(s, root, 4, ARGS, 1);
    SetupMaps(s, root, 4, ARGS, 1, ARGS);
    SetupMaps(s, root, 4, ARGS, 1, STACK);
    StackIsNotArgs();
  }

  lemma StackIsNotArgs()
    ensures InRange(ARGS, ARGS, 4, 1) && !InRange(ARGS, STACK, 4, 1)
    ensures FitsEntry(ARGS, 4, 1) && FitsEntry(STACK, 4, 1)
  {
    assert PageNumber(ARGS, 1) == 511 && PageNumber(STACK, 1) == 510;
    assert PageNumber(ARGS, 2) - PageNumber(STACK, 2) == 1;
    assert PageNumber(ARGS, 3) - PageNumber(STACK, 3) == 1;
    assert Span(1) == 512 && Span(2) == 512 * 512 && Span(3) == 512 * 512 * 512;
  }

  // ---------------------------------------------------------------- the balance of a whole run of a program

  /** An address space of its own for the task, with nothing mapped. */
  ghost predicate FreshSpace(s: Vm, task: nat, own: Vm, root: nat) {
    && task in s.cr3 && root !in s.used && own.used == s.used + {root} && own.cr3 == s.cr3[task := root]
    && own.boot == s.boot && CanLoad(own, root) && EmptyHalf(own, root)
  }

  lemma FreshPml4(s: Vm, task: nat)
    requires Inv(s) && task in s.cr3 && SetupPml4(s, task).1
    ensures FreshSpace(s, task, SetupPml4(s, task).0, SetupPml4(s, task).0.cr3[task])
  {
    var root := OneFrame(s.used, s.begin, s.end).start;
    assert FreeRun(s.used, root, 1);
    SetupPml4KeepsInv(s, task);
    hide Inv;
    forall i | 256 <= i < ENTRIES
      ensures EntryAt(SetupPml4(s, task).0.memory, root, i) == NO_ENTRY
    {
      WithPml4Entries(s, task, root, root, i);
    }
  }

  /** The argument page and the stack page, one after the other. */
  ghost function MapTop(s: Vm, root: nat): Exec {
    var args := MapPage(s, root, ARGS);
    if args.ok then MapPage(args.vm, root, STACK) else args
  }

  /** The space in which a program runs, from its fresh PML4 on. */
  ghost predicate BuiltFrom(own: Vm, root: nat, segments: seq<Segment>, built: Vm) {
    var loaded := LoadSegments(own, root, segments);
    loaded.ok && MapTop(loaded.vm, root) == Exec(built, true)
  }

  ghost predicate EmptyHalf(s: Vm, root: nat) {
    forall i | 256 <= i < ENTRIES :: !EntryAt(s.memory, root, i).present
  }

  const TOP_PAGES: seq<Request> := [Request(ARGS, 1), Request(STACK, 1)]

  lemma TopPagesAreRequests(s: Vm, root: nat)
    requires MapTop(s, root).ok
    ensures SetupAll(s, root, TOP_PAGES) == MapTop(s, root).vm
    ensures forall k | 0 <= k < |TOP_PAGES| :: InSlot(TOP_PAGES[k], 511)
  {
    hide SetupPageMap;
    var first := [Request(ARGS, 1)];
    assert TOP_PAGES[..1] == first && first[..0] == [];
    assert SetupAll(s, root, []) == s;
    assert SetupAll(s, root, first) == MapPage(s, root, ARGS).vm;
  }

  lemma TopGrows(s: Vm, root: nat)
    requires CanLoad(s, root) && MapTop(s, root).ok
    ensures var built := MapTop(s, root).vm;
            CanLoad(built, root) && Grown(s, built, root, 4) && GrownInEntry(s, built, root, 4, 511)
    ensures EntryAt(MapTop(s, root).vm.memory, root, 511).present
  {
    hide SetupAll, MapTop, GrownInEntry, SameContext, NewFrames, OutsideKept, PagesKept, EntriesKept;
    TopPagesAreRequests(s, root);
    SetupAllGrows(s, root, 511, TOP_PAGES);
    TopIsMapped(s, root);
  }

  lemma TopIsMapped(s: Vm, root: nat)
    requires CanLoad(s, root) && MapTop(s, root).ok
    ensures EntryAt(MapTop(s, root).vm.memory, root, 511).present
  {
    hide SetupPageMap;
    StackIsNotArgs();
    SetupGrows(s, root, 4, ARGS, 1);
    SetupMaps(MapPage(s, root, ARGS).vm, root, 4, STACK, 1, STACK);
  }

  // ---------------------------------------------------------------- frames below the slots of one PML4

  /** The frames below every slot but one. */
  ghost function OtherSlots(s: Vm, root: nat, slot: nat): set<nat> {
    set f | f in s.level && exists i: nat :: i != slot && f in SlotFrames(s, root, i)
  }

  lemma PresentSlotHasFrames(s: Vm, root: nat, slot: nat)
    requires Inv(s) && CanCleanSlot(s, root, slot)
    ensures EntryAt(s.memory, root, slot).addr in SlotFrames(s, root, slot)
  {
    ChildOf(s, root, 4, slot);
    assert Ancestor(s, EntryAt(s.memory, root, slot).addr, 0) == EntryAt(s.memory, root, slot).addr;
  }

  /** A frame below a PML4 hangs below one of its slots. */
  lemma UnderIsBelowSlot(s: Vm, f: nat, root: nat)
    requires Leveled(s) && root in s.level && s.level[root] == 4 && f != root && Under(s, f, root, 4)
    ensures exists i: nat :: f in SlotFrames(s, root, i)
  {
    var n := 4 - s.level[f];
    assert n > 0;
    var a := Ancestor(s, f, n - 1);
    AncestorLevel(s, f, n - 1);
    assert Parented(s, a, root, s.parent[a].index);
    assert f in SlotFrames(s, root, s.parent[a].index);
  }

  /** Below a PML4 whose own slots were empty hangs exactly what was taken since. */
  lemma NewFramesAreBelow(own: Vm, built: Vm, root: nat, f: nat)
    requires CanLoad(own, root) && CanLoad(built, root) && Grown(own, built, root, 4) && f in built.level
    requires EmptyHalf(own, root)
    ensures f !in own.level <==> exists i: nat :: f in SlotFrames(built, root, i)
  {
    if f !in own.level {
      UnderIsBelowSlot(built, f, root);
    } else if i: nat :| f in SlotFrames(built, root, i) {
      BelowEntryGrows(own, built, f, root, 4, i);
      BelowOwnSlot(own, f, root, i);
      NothingBelowAbsentEntry(own, f, root, 4, i);
    }
  }

  lemma BelowOwnSlot(s: Vm, f: nat, root: nat, i: nat)
    requires Leveled(s) && root in s.level && s.level[root] == 4 && BelowEntry(s, f, root, 4, i)
    ensures 256 <= i < ENTRIES
  {
    AncestorLevel(s, f, 3 - s.level[f]);
  }

  /** What is left below the other slots when one slot is cleaned. */
  lemma OtherSlotsAre(own: Vm, built: Vm, root: nat, slot: nat)
    requires CanLoad(own, root) && CanLoad(built, root) && Grown(own, built, root, 4)
    requires EmptyHalf(own, root)
    ensures OtherSlots(built, root, slot) == built.level.Keys - own.level.Keys - SlotFrames(built, root, slot)
    ensures SlotFrames(built, root, slot) <= built.level.Keys - own.level.Keys
  {
    forall f | f in built.level
      ensures f in OtherSlots(built, root, slot) <==> f !in own.level && f !in SlotFrames(built, root, slot)
      ensures f in SlotFrames(built, root, slot) ==> f !in own.level
    {
      NewFramesAreBelow(own, built, root, f);
      OneSlotEach(built, root, slot, f);
    }
  }

  lemma OneSlotEach(s: Vm, root: nat, slot: nat, f: nat)
    ensures f in SlotFrames(s, root, slot) ==> f !in OtherSlots(s, root, slot)
  {
  }

  // ---------------------------------------------------------------- the balance of a whole run of a program

  /** What a successful run consists of. */
  lemma PhasesOfRun(s: Vm, task: nat, segments: seq<Segment>, argsFit: bool)
    requires task in s.cr3 && ExecuteFile(s, task, segments, argsFit).ok
    ensures SetupPml4(s, task).1 && segments != [] && segments[0].a.Value() >= UPPER_HALF
    ensures var own := SetupPml4(s, task).0;
            BuiltFrom(own, own.cr3[task], segments, BuildSpace(s, task, segments, argsFit).vm)
    ensures var built := BuildSpace(s, task, segments, argsFit).vm;
            task in built.cr3 &&
            ExecuteFile(s, task, segments, argsFit).vm
            == FreePml4(CleanSlot(built, built.cr3[task], segments[0].a.pml4), task)
  {
    hide LoadSegments, MapPage, CleanSlot, FreePml4;
  }

  /** The space a program runs in: everything marked since its PML4 was made hangs below one of its slots. */
  lemma BuiltSpace(own: Vm, root: nat, segments: seq<Segment>, built: Vm)
    requires CanLoad(own, root) && OwnHalf(segments)
    requires BuiltFrom(own, root, segments, built)
    ensures CanLoad(built, root) && Grown(own, built, root, 4) && CanCleanSlot(built, root, 511)
  {
    hide LoadSegments, MapTop, SetupPageMap;
    var loaded := LoadSegments(own, root, segments).vm;
    LoadGrows(own, root, segments);
    TopGrows(loaded, root);
    GrownTransitive(own, loaded, built, root, 4);
  }

  /** Taking down one slot and the PML4 gives back all marks made since, except for those below the other slots. */
  lemma TakenDown(s: Vm, task: nat, own: Vm, root: nat, built: Vm, slot: nat)
    requires FreshSpace(s, task, own, root)
    requires CanLoad(built, root) && Grown(own, built, root, 4) && CanCleanSlot(built, root, slot)
    ensures var s', others := FreePml4(CleanSlot(built, root, slot), task), OtherSlots(built, root, slot);
            others !! s.used && s'.used == s.used + others && s'.cr3 == s.cr3[task := s.boot]
  {
    hide CleanSlot, SlotFrames, OtherSlots, Grown, Inv, EmptyHalf;
    CleanSlotFrees(built, root, slot);
    OtherSlotsAre(own, built, root, slot);
    TakenMarks(own, built, root);
    MarksAdd(s.used, root, built.level.Keys - own.level.Keys, SlotFrames(built, root, slot),
             OtherSlots(built, root, slot));
  }

  lemma TakenMarks(own: Vm, built: Vm, root: nat)
    requires Grown(own, built, root, 4)
    ensures var taken := built.level.Keys - own.level.Keys; built.used == own.used + taken && taken !! own.used
    ensures built.cr3 == own.cr3 && built.boot == own.boot
  {
  }

  /** Marks made and taken back. */
  lemma MarksAdd(used: set<nat>, root: nat, taken: set<nat>, mine: set<nat>, others: set<nat>)
    requires root !in used && taken !! used + {root} && mine <= taken && others == taken - mine
    ensures used + {root} + taken - mine - {root} == used + others && others !! used
  {
  }

  /** Every segment with pages lies in the slot that is cleaned, and that is the slot of the arguments. */
  predicate AllInTop(segments: seq<Segment>) {
    segments != [] && segments[0].a.pml4 == 511 &&
    forall k | 0 <= k < |segments| && segments[k].memsz > 0 :: segments[k].a.pml4 == 511
  }

  /** With everything in the last slot nothing hangs elsewhere. */
  lemma TopHoldsAll(own: Vm, root: nat, segments: seq<Segment>, built: Vm)
    requires CanLoad(own, root) && AllInTop(segments)
    requires EmptyHalf(own, root) && BuiltFrom(own, root, segments, built)
    ensures OtherSlots(built, root, 511) == {}
  {
    var loaded := LoadSegments(own, root, segments).vm;
    LoadedIsSetupAll(own, root, segments);
    SetupAllGrows(own, root, 511, Requests(segments));
    hide LoadSegments, MapTop, SetupPageMap, SetupAll, SlotFrames;
    TopGrows(loaded, root);
    GrownInEntryTransitive(own, loaded, built, root, 4, 511);
    SlotFramesAreNew(own, built, root, 511) by {
      GrownTransitive(own, loaded, built, root, 4);
    }
    BuiltSpace(own, root, segments, built);
    OtherSlotsAre(own, built, root, 511);
  }

  lemma MappedIsPresent(m: map<nat, Table>, root: nat, b: ValidAddress)
    requires Translate(m, root, 4, b).Mapped?
    ensures EntryAt(m, root, b.pml4).present
  {
  }

  lemma PresentKept(s: Vm, s': Vm, root: nat, i: nat)
    requires CanLoad(s, root) && Grown(s, s', root, 4) && 256 <= i < ENTRIES && EntryAt(s.memory, root, i).present
    ensures EntryAt(s'.memory, root, i).present
  {
    assert Present(s, root, i);
  }

  /** A segment outside the slot that is cleaned leaves a frame. */
  lemma SegmentElsewhere(own: Vm, root: nat, segments: seq<Segment>, built: Vm, k: nat, slot: nat)
    requires CanLoad(own, root) && OwnHalf(segments)
    requires BuiltFrom(own, root, segments, built)
    requires k < |segments| && segments[k].memsz > 0 && segments[k].a.pml4 != slot
    ensures OtherSlots(built, root, slot) != {}
  {
    hide LoadSegments, MapTop, SetupPageMap, SlotFrames, Translate, OtherSlots, Grown;
    var loaded, i := LoadSegments(own, root, segments).vm, segments[k].a.pml4;
    FirstPageIsMapped(own, root, segments, k);
    MappedIsPresent(loaded.memory, root, segments[k].a);
    LoadGrows(own, root, segments);
    TopGrows(loaded, root);
    PresentKept(loaded, built, root, i);
    PresentSlotHasFrames(built, root, i);
    FrameElsewhere(built, root, i, slot);
  }

  lemma FrameElsewhere(s: Vm, root: nat, i: nat, slot: nat)
    requires i < ENTRIES && i != slot && EntryAt(s.memory, root, i).addr in SlotFrames(s, root, i)
    ensures OtherSlots(s, root, slot) != {}
  {
    assert EntryAt(s.memory, root, i).addr in OtherSlots(s, root, slot);
  }

  lemma NothingElsewhereIff(own: Vm, root: nat, segments: seq<Segment>, built: Vm)
    requires CanLoad(own, root) && OwnHalf(segments) && segments != []
    requires EmptyHalf(own, root) && BuiltFrom(own, root, segments, built)
    ensures OtherSlots(built, root, segments[0].a.pml4) == {} <==> AllInTop(segments)
  {
    hide LoadSegments, MapTop, OtherSlots, CanLoad, SlotFrames;
    var slot := segments[0].a.pml4;
    if AllInTop(segments) {
      TopHoldsAll(own, root, segments, built);
    } else if slot != 511 {
      BuiltSpace(own, root, segments, built);
      TopElsewhere(built, root, slot);
    } else {
      var k :| 0 <= k < |segments| && segments[k].memsz > 0 && segments[k].a.pml4 != 511;
      SegmentElsewhere(own, root, segments, built, k, slot);
    }
  }

  lemma TopElsewhere(s: Vm, root: nat, slot: nat)
    requires CanLoad(s, root) && CanCleanSlot(s, root, 511) && slot != 511
    ensures OtherSlots(s, root, slot) != {}
  {
    PresentSlotHasFrames(s, root, 511);
    FrameElsewhere(s, root, 511, slot);
  }

  /** The slot of the first segment has pages: of some segment, or those of arguments and stack. */
  ghost predicate FirstSlotIsUsed(segments: seq<Segment>) {
    segments != [] && (segments[0].a.pml4 == 511 || SomeReach(segments, segments[0].a.pml4))
  }

  lemma BuiltSlots(own: Vm, root: nat, segments: seq<Segment>, built: Vm, slot: nat)
    requires CanLoad(own, root) && EmptyHalf(own, root) && OwnHalf(segments)
    requires BuiltFrom(own, root, segments, built) && 256 <= slot < ENTRIES
    ensures EntryAt(built.memory, root, slot).present <==> slot == 511 || SomeReach(segments, slot)
  {
    hide LoadSegments, MapTop, SetupPageMap, SomeReach, Grown;
    var loaded := LoadSegments(own, root, segments).vm;
    LoadedSlots(own, root, segments, slot);
    LoadGrows(own, root, segments);
    TopGrows(loaded, root);
  }

  /** CleanPageMaps finds the slot it is called for present if and only if the program uses that slot. */
  lemma FirstSlotIsPresentIff(s: Vm, task: nat, segments: seq<Segment>, argsFit: bool)
    requires Inv(s) && task in s.cr3 && OwnHalf(segments) && BuildSpace(s, task, segments, argsFit).ok
    ensures segments != [] && task in BuildSpace(s, task, segments, argsFit).vm.cr3
    ensures var built := BuildSpace(s, task, segments, argsFit).vm;
            EntryAt(built.memory, built.cr3[task], segments[0].a.pml4).present <==> FirstSlotIsUsed(segments)
  {
    hide SlotFrames, Inv, SomeReach, BuiltFrom;
    var own := SetupPml4(s, task).0;
    SpaceIsBuilt(s, task, segments, argsFit);
    FreshPml4(s, task);
    UpperHalfIsOwn(segments[0].a);
    hide BuildSpace, SetupPml4;
    BuiltSpace(own, own.cr3[task], segments, BuildSpace(s, task, segments, argsFit).vm);
    BuiltSlots(own, own.cr3[task], segments, BuildSpace(s, task, segments, argsFit).vm, segments[0].a.pml4);
  }

  lemma SpaceIsBuilt(s: Vm, task: nat, segments: seq<Segment>, argsFit: bool)
    requires task in s.cr3 && BuildSpace(s, task, segments, argsFit).ok
    ensures SetupPml4(s, task).1 && segments != [] && segments[0].a.Value() >= UPPER_HALF
    ensures var own := SetupPml4(s, task).0;
            BuiltFrom(own, own.cr3[task], segments, BuildSpace(s, task, segments, argsFit).vm)
  {
    hide LoadSegments, MapPage;
  }

  /** A program whose first segment is empty and alone in its slot: the slot is not present when it is cleaned. */
  lemma EmptyFirstSegment()
    ensures var segments := [Segment(LinearAddress(0, 0, 0, 0, 256, 0xffff), 0),
                             Segment(LinearAddress(0, 0, 0, 0, 257, 0xffff), 4096)];
            OwnHalf(segments) && segments[0].a.Value() >= UPPER_HALF && !FirstSlotIsUsed(segments)
  {
  }

  /**
   * ExecuteFile cleans the slot of the first segment only. A successful run that finds that slot present leaves exactly
   * the frames below the
   * other slots marked, and so it leaves the marks as they were if and only if all segments lie in the last slot.
   */
  lemma ExecuteFileLeaves(s: Vm, task: nat, segments: seq<Segment>, argsFit: bool)
    requires Inv(s) && task in s.cr3 && OwnHalf(segments) && ExecuteFile(s, task, segments, argsFit).ok
    requires FirstSlotIsUsed(segments)
    ensures task in BuildSpace(s, task, segments, argsFit).vm.cr3
    ensures var built, s' := BuildSpace(s, task, segments, argsFit).vm, ExecuteFile(s, task, segments, argsFit).vm;
            var leaked := OtherSlots(built, built.cr3[task], segments[0].a.pml4);
            && leaked !! s.used && s'.used == s.used + leaked && s'.cr3 == s.cr3[task := s.boot]
            && (s'.used == s.used <==> AllInTop(segments))
  {
    hide BuiltFrom, CleanSlot, FreePml4, OtherSlots, SlotFrames, BuildSpace, ExecuteFile, SetupPml4, LoadsInto,
         AllInTop, Inv;
    var own := SetupPml4(s, task).0;
    PhasesOfRun(s, task, segments, argsFit);
    FreshPml4(s, task);
    UpperHalfIsOwn(segments[0].a);
    var root, built := own.cr3[task], BuildSpace(s, task, segments, argsFit).vm;
    BuiltSpace(own, root, segments, built);
    BuiltSlots(own, root, segments, built, segments[0].a.pml4);
    assert built.cr3[task] == root;
    TakenDown(s, task, own, root, built, segments[0].a.pml4);
    NothingElsewhereIff(own, root, segments, built);
  }

  /**
   * A successful ExecuteFile of a program that loads into one slot other than 511 gives back every frame it took
   * except five: the three tables, the argument page and the stack page below slot 511.
   */
  lemma ExecuteFileLeavesFive(s: Vm, task: nat, slot: nat, segments: seq<Segment>, argsFit: bool)
    requires Inv(s) && task in s.cr3 && LoadsInto(segments, slot)
    requires ExecuteFile(s, task, segments, argsFit).ok
    ensures var built, s' := BuildSpace(s, task, segments, argsFit).vm, ExecuteFile(s, task, segments, argsFit).vm;
            task in built.cr3 &&
            var leaked := SlotFrames(built, built.cr3[task], 511);
            && |leaked| == 5 && leaked !! s.used && s'.used == s.used + leaked && s'.cr3 == s.cr3[task := s.boot]
  {
    hide BuiltFrom, CleanSlot, FreePml4, OtherSlots, SlotFrames, BuildSpace, ExecuteFile, SetupPml4, LoadsInto,
         OwnHalf, Inv;
    var own := SetupPml4(s, task).0;
    PhasesOfRun(s, task, segments, argsFit);
    FreshPml4(s, task);
    var root, built := own.cr3[task], BuildSpace(s, task, segments, argsFit).vm;
    OneSlotIsOwn(segments, slot);
    BuiltSpace(own, root, segments, built);
    OneSlotLoaded(own, root, slot, segments, built);
    TakenDown(s, task, own, root, built, slot);
  }

  lemma OneSlotIsOwn(segments: seq<Segment>, slot: nat)
    requires LoadsInto(segments, slot)
    ensures segments[0].a.pml4 == slot && OwnHalf(segments)
  {
  }

  /** With all segments in one slot other than 511, what hangs elsewhere are the five frames of slot 511. */
  lemma OneSlotLoaded(own: Vm, root: nat, slot: nat, segments: seq<Segment>, built: Vm)
    requires CanLoad(own, root) && LoadsInto(segments, slot)
    requires EmptyHalf(own, root) && BuiltFrom(own, root, segments, built)
    ensures CanCleanSlot(built, root, slot)
    ensures OtherSlots(built, root, slot) == SlotFrames(built, root, 511) && |SlotFrames(built, root, 511)| == 5
  {
    hide LoadSegments, MapTop, SlotFrames, OtherSlots, Grown, Inv, Leveled, ForestGrows;
    var loaded := LoadSegments(own, root, segments).vm;
    LoadedSlot(own, root, slot, segments);
    TopIsFive(loaded, root);
    PresentKept(loaded, built, root, slot);
    GrownLevels(own, loaded, root);
    GrownLevels(loaded, built, root);
    OtherSlotKept(loaded, built, root, slot, 511);
    BuiltSpace(own, root, segments, built);
    OtherSlotsAre(own, built, root, slot);
  }

  lemma GrownLevels(s: Vm, s': Vm, root: nat)
    requires CanLoad(s, root) && Grown(s, s', root, 4)
    ensures s.level.Keys <= s'.level.Keys && Leveled(s) && ForestGrows(s, s')
  {
  }

  /** After loading, the slot holds all that was taken, and the last slot is still empty. */
  lemma LoadedSlot(own: Vm, root: nat, slot: nat, segments: seq<Segment>)
    requires CanLoad(own, root) && EmptyHalf(own, root) && LoadsInto(segments, slot)
             && LoadSegments(own, root, segments).ok
    ensures var loaded := LoadSegments(own, root, segments).vm;
            && CanLoad(loaded, root) && Grown(own, loaded, root, 4)
            && EntryAt(loaded.memory, root, slot).present && !EntryAt(loaded.memory, root, 511).present
            && SlotFrames(loaded, root, slot) == loaded.level.Keys - own.level.Keys
  {
    hide LoadSegments, SetupAll, SlotFrames, Translate;
    LoadedIsSetupAll(own, root, segments);
    SetupAllGrows(own, root, slot, Requests(segments));
    FirstPageIsMapped(own, root, segments, 0);
    MappedIsPresent(LoadSegments(own, root, segments).vm.memory, root, segments[0].a);
    SlotFramesAreNew(own, LoadSegments(own, root, segments).vm, root, slot);
  }

  /** The last slot, empty before, holds the five frames of the argument and stack pages. */
  lemma TopIsFive(s: Vm, root: nat)
    requires CanLoad(s, root) && !EntryAt(s.memory, root, 511).present && MapTop(s, root).ok
    ensures var built := MapTop(s, root).vm;
            && CanLoad(built, root) && Grown(s, built, root, 4)
            && SlotFrames(built, root, 511) == built.level.Keys - s.level.Keys && |SlotFrames(built, root, 511)| == 5
  {
    hide MapPage, SlotFrames, Inv;
    ArgsAndStackTakeFive(s, root);
    hide MapTop;
    TopGrows(s, root);
    SlotFramesAreNew(s, MapTop(s, root).vm, root, 511);
    TakenMarks(s, MapTop(s, root).vm, root);
  }

  /** Frames below different slots of a PML4 stay apart while one of them grows. */
  lemma OtherSlotKept(s: Vm, s': Vm, root: nat, slot: nat, busy: nat)
    requires Leveled(s) && ForestGrows(s, s') && slot != busy
    requires SlotFrames(s', root, busy) == s'.level.Keys - s.level.Keys
    ensures SlotFrames(s', root, slot) == SlotFrames(s, root, slot)
  {
    forall f | f in s'.level
      ensures BelowEntry(s', f, root, 4, slot) <==> f in SlotFrames(s, root, slot)
    {
      if f in s.level {
        BelowEntryGrows(s, s', f, root, 4, slot);
      } else {
        assert f in SlotFrames(s', root, busy);
      }
    }
  }

  // ---------------------------------------------------------------- runs that fail

  /** All frames below a PML4. */
  ghost function BelowRoot(s: Vm, root: nat): set<nat> {
    set f | f in s.level && exists i: nat :: f in SlotFrames(s, root, i)
  }

  lemma MapPageGrows(s: Vm, root: nat, a: ValidAddress)
    requires CanLoad(s, root) && a.pml4 == 511
    ensures CanLoad(MapPage(s, root, a).vm, root) && Grown(s, MapPage(s, root, a).vm, root, 4)
  {
    hide SetupPageMap;
    SetupGrows(s, root, 4, a, 1);
  }

  /** What ran before the failure only grew the new address space. */
  lemma FailedGrows(s: Vm, task: nat, segments: seq<Segment>, argsFit: bool)
    requires Inv(s) && task in s.cr3 && OwnHalf(segments) && SetupPml4(s, task).1
    requires FreshSpace(s, task, SetupPml4(s, task).0, SetupPml4(s, task).0.cr3[task])
    requires !BuildSpace(s, task, segments, argsFit).ok
    ensures var own, built := SetupPml4(s, task).0, BuildSpace(s, task, segments, argsFit).vm;
            CanLoad(built, own.cr3[task]) && Grown(own, built, own.cr3[task], 4)
  {
    hide SetupPml4, LoadSegments, MapPage, EmptyHalf, Grown, Leveled, Down, Up, KernelHalf, Roots;
    var own := SetupPml4(s, task).0;
    var root := own.cr3[task];
    GrownReflexive(own, root, 4);
    var loaded := LoadElf(own, root, segments);
    LoadGrows(own, root, segments);
    if loaded.ok {
      var args := MapPage(loaded.vm, root, ARGS);
      MapPageGrows(loaded.vm, root, ARGS);
      GrownTransitive(own, loaded.vm, args.vm, root, 4);
      if args.ok && argsFit {
        MapPageGrows(args.vm, root, STACK);
        GrownTransitive(own, args.vm, MapPage(args.vm, root, STACK).vm, root, 4);
      }
    }
  }

  lemma BelowRootIs(own: Vm, built: Vm, root: nat)
    requires CanLoad(own, root) && CanLoad(built, root) && Grown(own, built, root, 4) && EmptyHalf(own, root)
    ensures BelowRoot(built, root) == built.level.Keys - own.level.Keys
    ensures own.level.Keys <= built.level.Keys
  {
    hide SlotFrames, Inv, EmptyHalf, NewFrames, OutsideKept, PagesKept, EntriesKept;
    forall f | f in built.level
      ensures f in BelowRoot(built, root) <==> f !in own.level
    {
      NewFramesAreBelow(own, built, root, f);
    }
  }

  /**
   * A run that fails after it got its PML4 gives nothing back: the PML4 and all frames below it stay marked, and the
   * task stays on it.
   */
  lemma FailedRunKeepsFrames(s: Vm, task: nat, segments: seq<Segment>, argsFit: bool)
    requires Inv(s) && task in s.cr3 && OwnHalf(segments) && SetupPml4(s, task).1
    requires !ExecuteFile(s, task, segments, argsFit).ok
    ensures var s' := ExecuteFile(s, task, segments, argsFit).vm;
            && task in s'.cr3 && s'.cr3[task] !in s.used && BelowRoot(s', s'.cr3[task]) !! s.used
            && s'.used == s.used + {s'.cr3[task]} + BelowRoot(s', s'.cr3[task])
            && s'.cr3 == s.cr3[task := s'.cr3[task]]
  {
    hide BuildSpace, SetupPml4, Inv, EmptyHalf, Grown, BelowRoot, FreePml4, CleanSlot;
    FreshPml4(s, task);
    var own, built := SetupPml4(s, task).0, BuildSpace(s, task, segments, argsFit).vm;
    var root := own.cr3[task];
    if BuildSpace(s, task, segments, argsFit).ok {
      SpaceIsBuilt(s, task, segments, argsFit);
      BuiltSpace(own, root, segments, built);
      TakenMarks(own, built, root);
    } else {
      FailedGrows(s, task, segments, argsFit);
      TakenMarks(own, built, root);
      BelowRootIs(own, built, root);
    }
  }

  // ---------------------------------------------------------------- the pages of stack and arguments

  /** The stack page is the last but one of the address space and the argument page the last. */
  lemma TopAddresses()
    ensures STACK.Value() == 0xffff_ffff_ffff_e000 && ARGS.Value() == 0xffff_ffff_ffff_f000
  {
  }

  /** Every byte of these two pages, from the lowest of the stack on, lies in the range of one of the two calls. */
  lemma TopByte(v: nat)
    requires 0xffff_ffff_ffff_e000 <= v < ADDRESS_END
    ensures var b := Address(v);
            && b.Valid() && b.pml4 >= 256
            && (v < 0xffff_ffff_ffff_f000 ==> InRange(STACK, b, 4, 1))
            && (v >= 0xffff_ffff_ffff_f000 ==> InRange(ARGS, b, 4, 1))
  {
    TopAddresses();
    BytePage(STACK, v - STACK.Value());
    if v >= 0xffff_ffff_ffff_f000 {
      BytePage(ARGS, v - ARGS.Value());
    }
  }

  /**
   * When the program starts, both pages are mapped for it, so also the eight bytes at the stack pointer it gets,
   * which is 0xffff_ffff_ffff_eff8.
   */
  lemma StackAndArgsAreMapped(s: Vm, task: nat, segments: seq<Segment>, argsFit: bool, v: nat)
    requires Inv(s) && task in s.cr3 && OwnHalf(segments) && BuildSpace(s, task, segments, argsFit).ok
    requires 0xffff_ffff_ffff_e000 <= v < ADDRESS_END
    ensures task in BuildSpace(s, task, segments, argsFit).vm.cr3 && Address(v).Valid()
    ensures var built := BuildSpace(s, task, segments, argsFit).vm;
            var m := Translate(built.memory, built.cr3[task], 4, Address(v));
            m.Mapped? && m.open
  {
    var own := SetupPml4(s, task).0;
    SpaceIsBuilt(s, task, segments, argsFit);
    FreshPml4(s, task);
    hide BuildSpace, SetupPml4, Inv, EmptyHalf;
    BuiltSpace(own, own.cr3[task], segments, BuildSpace(s, task, segments, argsFit).vm);
    LoadGrows(own, own.cr3[task], segments);
    TopIsOpen(LoadSegments(own, own.cr3[task], segments).vm, own.cr3[task], v);
  }

  lemma TopIsOpen(s: Vm, root: nat, v: nat)
    requires CanLoad(s, root) && MapTop(s, root).ok && 0xffff_ffff_ffff_e000 <= v < ADDRESS_END
    ensures Address(v).Valid()
    ensures var m := Translate(MapTop(s, root).vm.memory, root, 4, Address(v)); m.Mapped? && m.open
  {
    hide SetupPageMap, InRange, Translate;
    TopByte(v);
    var b, mid := Address(v), MapPage(s, root, ARGS).vm;
    SetupGrows(s, root, 4, ARGS, 1);
    if v < 0xffff_ffff_ffff_f000 {
      SetupMaps(mid, root, 4, STACK, 1, b);
    } else {
      SetupMaps(s, root, 4, ARGS, 1, b);
      SetupKeepsRest(mid, root, 4, STACK, 1);
      TranslateKept(mid, MapTop(s, root).vm, root, 4, b);
    }
  }
}
