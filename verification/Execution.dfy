/** Frame accounting: what a process's page tables take and what tearing them down gives back. */
module Execution {
  import opened MemoryManager
  import opened Paging
  import opened PageTables
  import opened PageMapping
  import opened Teardown
  import opened AddressSpaces

  // ---------------------------------------------------------------- one entry's subtree

  /** f hangs below entry i of table pm, a table of the given level. */
  ghost predicate BelowEntry(s: Vm, f: nat, pm: nat, level: nat, i: nat) {
    level >= 1 && f in s.level && s.level[f] <= level - 1 &&
    Parented(s, Ancestor(s, f, level - 1 - s.level[f]), pm, i)
  }

  /** All frames below one slot of a PML4. */
  ghost function SlotFrames(s: Vm, root: nat, slot: nat): set<nat> {
    set f | f in s.level && BelowEntry(s, f, root, 4, slot)
  }

  lemma BelowEntryGrows(s: Vm, s': Vm, f: nat, pm: nat, level: nat, i: nat)
    requires Leveled(s) && ForestGrows(s, s') && f in s.level
    ensures BelowEntry(s', f, pm, level, i) <==> BelowEntry(s, f, pm, level, i)
  {
    if level >= 1 && s.level[f] <= level - 1 {
      AncestorGrows(s, s', f, level - 1 - s.level[f]);
    }
  }

  /** Growth confined to the subtree of one entry. */
  ghost predicate GrownInEntry(s: Vm, s': Vm, pm: nat, level: nat, i: nat) {
    && (forall j | 0 <= j < ENTRIES && j != i :: EntryAt(s'.memory, pm, j) == EntryAt(s.memory, pm, j))
    && (forall f | f in s'.level && f !in s.level :: BelowEntry(s', f, pm, level, i))
  }

  lemma EnterGrowsInEntry(s: Vm, pm: nat, level: nat, i: nat)
    requires Inv(s) && pm in s.level && 1 <= s.level[pm] == level && OwnEntry(level, i)
    ensures GrownInEntry(s, Entered(s, pm, level, i).vm, pm, level, i)
  {
    var c := Entered(s, pm, level, i);
    if c.ok {
      EnteredChangesOneEntry(s, pm, level, i);
      EnterEntry(s, pm, level, i);
      assert Ancestor(c.vm, c.frame, 0) == c.frame;
    }
  }

  lemma BelowChildIsBelowEntry(s: Vm, f: nat, child: nat, pm: nat, level: nat, i: nat)
    requires Leveled(s) && Parented(s, child, pm, i) && level >= 1 && Under(s, f, child, level - 1)
    ensures BelowEntry(s, f, pm, level, i)
  {
  }

  lemma GrownInEntryThroughChild(s: Vm, mid: Vm, s': Vm, child: nat, pm: nat, level: nat, i: nat)
    requires Leveled(mid) && Leveled(s') && level >= 1 && pm in mid.level && mid.level[pm] == level
    requires GrownInEntry(s, mid, pm, level, i) && Parented(mid, child, pm, i)
    requires ForestGrows(mid, s') && NewFrames(mid, s', child, level - 1) && OutsideKept(mid, s', child, level - 1)
    ensures GrownInEntry(s, s', pm, level, i)
  {
    assert !Under(mid, pm, child, level - 1);
    assert Parented(s', child, pm, i);
    forall f | f in s'.level && f !in s.level
      ensures BelowEntry(s', f, pm, level, i)
    {
      if f in mid.level {
        BelowEntryGrows(mid, s', f, pm, level, i);
      } else {
        BelowChildIsBelowEntry(s', f, child, pm, level, i);
      }
    }
  }

  /** A call whose pages all lie below its first entry touches nothing else of its table. */
  lemma FillGrowsInEntry(s: Vm, pm: nat, level: nat, a: LinearAddress, n: nat)
    requires CanSetup(s, pm, level, a) && n > 0
    ensures GrownInEntry(s, FillEntry(s, pm, level, a, n).vm, pm, level, a.Part(level))
  {
    var i := a.Part(level);
    EnterGrowsInEntry(s, pm, level, i);
    var c := Entered(s, pm, level, i);
    if c.ok && level > 1 {
      EnteredCanFillChild(s, pm, level, a);
      ChildGrowsInEntry(s, c.vm, c.frame, pm, level, a, n);
    }
  }

  lemma ChildGrowsInEntry(s: Vm, mid: Vm, child: nat, pm: nat, level: nat, a: LinearAddress, n: nat)
    requires CanFillChild(mid, child, pm, level, a) && GrownInEntry(s, mid, pm, level, a.Part(level))
    ensures GrownInEntry(s, SetupPageMap(mid, child, level - 1, a, n).vm, pm, level, a.Part(level))
  {
    hide SetupPageMap;
    SetupGrows(mid, child, level - 1, a, n);
    GrownInEntryThroughChild(s, mid, SetupPageMap(mid, child, level - 1, a, n).vm, child, pm, level, a.Part(level));
  }

  /** All n pages lie below the entry of a at this level. */
  predicate FitsEntry(a: LinearAddress, level: nat, n: nat)
    requires level >= 1
  {
    PageNumber(a, level - 1) + n <= Span(level - 1)
  }

  lemma SetupGrowsInEntry(s: Vm, pm: nat, level: nat, a: LinearAddress, n: nat)
    requires CanSetup(s, pm, level, a) && (FitsEntry(a, level, n) || a.Part(level) == 511)
    ensures GrownInEntry(s, SetupPageMap(s, pm, level, a, n).vm, pm, level, a.Part(level))
  {
    hide Entered;
    if n > 0 {
      FillGrowsInEntry(s, pm, level, a, n);
      FillCounts(s, pm, level, a, n);
      if FillEntry(s, pm, level, a, n).ok && a.Part(level) < 511 {
        NextPageNumber(a, level);
      }
    }
  }

  // ---------------------------------------------------------------- a sequence of requests in one PML4 slot

  datatype Request = Request(a: ValidAddress, n: nat)

  /** A request for pages of one slot; those behind the last slot are not mapped at all. */
  predicate InSlot(q: Request, slot: nat) {
    q.n > 0 ==> q.a.pml4 == slot && (FitsEntry(q.a, 4, q.n) || slot == 511)
  }

  /** Calls of SetupPageMaps one after the other, whether or not they succeed. */
  ghost function SetupAll(s: Vm, root: nat, requests: seq<Request>): Vm {
    if requests == [] then s
    else
      var last := requests[|requests| - 1];
      SetupPageMap(SetupAll(s, root, requests[..|requests| - 1]), root, 4, last.a, last.n).vm
  }

  lemma GrownInEntryTransitive(s0: Vm, s1: Vm, s2: Vm, pm: nat, level: nat, i: nat)
    requires Leveled(s1) && ForestGrows(s1, s2)
    requires GrownInEntry(s0, s1, pm, level, i) && GrownInEntry(s1, s2, pm, level, i)
    ensures GrownInEntry(s0, s2, pm, level, i)
  {
    forall f | f in s2.level && f !in s0.level
      ensures BelowEntry(s2, f, pm, level, i)
    {
      if f in s1.level {
        BelowEntryGrows(s1, s2, f, pm, level, i);
      }
    }
  }

  /** Requests within one slot grow only the subtree of that slot, and every frame they take hangs there. */
  lemma {:induction false} SetupAllGrows(s: Vm, root: nat, slot: nat, requests: seq<Request>)
    requires Inv(s) && root in s.level && s.level[root] == 4 && OwnEntry(4, slot)
    requires forall k | 0 <= k < |requests| :: InSlot(requests[k], slot)
    ensures var s' := SetupAll(s, root, requests);
            Inv(s') && Grown(s, s', root, 4) && GrownInEntry(s, s', root, 4, slot)
    decreases |requests|
  {
    if requests == [] {
      GrownReflexive(s, root, 4);
    } else {
      var rest, last := requests[..|requests| - 1], requests[|requests| - 1];
      SetupAllGrows(s, root, slot, rest);
      var mid := SetupAll(s, root, rest);
      OneMoreRequest(s, mid, root, slot, last);
    }
  }

  lemma OneMoreRequest(s: Vm, mid: Vm, root: nat, slot: nat, q: Request)
    requires Inv(s) && Inv(mid) && root in s.level && s.level[root] == 4 && OwnEntry(4, slot) && InSlot(q, slot)
    requires Grown(s, mid, root, 4) && GrownInEntry(s, mid, root, 4, slot)
    ensures var s' := SetupPageMap(mid, root, 4, q.a, q.n).vm;
            Inv(s') && Grown(s, s', root, 4) && GrownInEntry(s, s', root, 4, slot)
  {
    hide Leveled, GrownInEntry;
    if q.n > 0 {
      hide SetupPageMap;
      var s' := SetupPageMap(mid, root, 4, q.a, q.n).vm;
      SetupGrows(mid, root, 4, q.a, q.n);
      SetupGrowsInEntry(mid, root, 4, q.a, q.n);
      GrownTransitive(s, mid, s', root, 4);
      GrownInEntryTransitive(s, mid, s', root, 4, slot);
    }
  }

  // ---------------------------------------------------------------- what CleanPageMaps frees

  lemma {:induction false} AncestorLevel(s: Vm, f: nat, n: nat)
    requires Leveled(s) && f in s.level
    ensures Ancestor(s, f, n) in s.level && s.level[Ancestor(s, f, n)] <= s.level[f] + n
  {
    if n > 0 {
      AncestorLevel(s, f, n - 1);
    }
  }

  /** A frame that is still in the forest below an emptied table cannot exist. */
  lemma NothingUnderChildless(s: Vm, f: nat, pm: nat, level: nat)
    requires Leveled(s) && Up(s) && Childless(s, pm) && s.level[pm] == level >= 1
    requires Under(s, f, pm, level)
    ensures f == pm
  {
    if s.level[f] < level {
      var a := Ancestor(s, f, level - s.level[f] - 1);
      AncestorLevel(s, f, level - s.level[f] - 1);
      NoChildOfChildless(s, pm, a);
    }
  }

  /** CleanPageMap frees exactly the frames below its table. */
  lemma CleanFreesSubtree(s: Vm, pm: nat, level: nat, f: nat)
    requires CanClean(s, pm, level, 0)
    ensures Removed(s, CleanPageMap(s, pm, level, 0), f) <==> Under(s, f, pm, level) && f != pm
  {
    hide CleanPageMap;
    CleanShrinks(s, pm, level, 0);
    var s' := CleanPageMap(s, pm, level, 0);
    if Under(s, f, pm, level) && f in s'.level {
      UnderGrows(s', s, f, pm, level);
      NothingUnderChildless(s', f, pm, level);
    }
  }

  lemma {:induction false} DetachKeepsAncestor(s: Vm, root: nat, slot: nat, f: nat, n: nat)
    requires Inv(s) && CanCleanSlot(s, root, slot) && f in s.level && s.level[f] + n <= 3
    ensures Ancestor(Detach(s, root, slot), f, n) == Ancestor(s, f, n)
  {
    if n > 0 {
      DetachKeepsAncestor(s, root, slot, f, n - 1);
      AncestorLevel(s, f, n - 1);
      ChildOf(s, root, 4, slot);
    }
  }

  lemma DetachedSubtree(s: Vm, root: nat, slot: nat, f: nat)
    requires Inv(s) && CanCleanSlot(s, root, slot)
    ensures Under(Detach(s, root, slot), f, EntryAt(s.memory, root, slot).addr, 3) <==> BelowEntry(s, f, root, 4, slot)
  {
    ChildOf(s, root, 4, slot);
    if f in s.level && s.level[f] <= 3 {
      DetachKeepsAncestor(s, root, slot, f, 3 - s.level[f]);
      var a := Ancestor(s, f, 3 - s.level[f]);
      if Parented(s, a, root, slot) {
        assert PointsTo(s, s.parent[a], a);
      }
    }
  }

  /** The two frees of CleanPageMaps, the subtree's and the top table's, together. */
  lemma ReleaseFreesOnce(d: Vm, c: Vm, pdp: nat)
    requires FreedOnce(d, c) && ForestGrows(c, d) && RemovedBelow(d, c, pdp, 3) && pdp in c.level
    ensures var s' := Release(c, pdp);
            && FreedOnce(d, s')
            && (forall f :: Removed(d, s', f) <==> Removed(d, c, f) || f == pdp)
            && (forall f :: f in s'.used <==> f in d.used && !Removed(d, s', f))
  {
    assert NewlyFreed(d, Release(c, pdp)) == NewlyFreed(d, c) + [pdp];
    assert !Removed(d, c, pdp);
  }

  /** What CleanPageMap removes below the detached table, with that table, are the frames of the slot. */
  lemma CleanedFrames(s: Vm, root: nat, slot: nat, f: nat)
    requires Inv(s) && CanCleanSlot(s, root, slot)
    ensures var pdp, d := EntryAt(s.memory, root, slot).addr, Detach(s, root, slot);
            Removed(d, CleanPageMap(d, pdp, 3, 0), f) || f == pdp <==> f in SlotFrames(s, root, slot)
  {
    var pdp, d := EntryAt(s.memory, root, slot).addr, Detach(s, root, slot);
    DetachKeepsInv(s, root, slot);
    CleanFreesSubtree(d, pdp, 3, f);
    DetachedSubtree(s, root, slot, f);
    hide CleanPageMap, Inv;
    assert Under(d, pdp, pdp, 3) by {
      assert Ancestor(d, pdp, 0) == pdp;
    }
  }

  /** CleanPageMaps frees each frame below its slot once and no other frame. */
  lemma CleanSlotFrees(s: Vm, root: nat, slot: nat)
    requires Inv(s) && CanCleanSlot(s, root, slot)
    ensures var s' := CleanSlot(s, root, slot);
            && s'.level.Keys == s.level.Keys - SlotFrames(s, root, slot)
            && s'.used == s.used - SlotFrames(s, root, slot)
            && FreedOnce(s, s') && SameSpaces(s, s')
  {
    var pdp, d := EntryAt(s.memory, root, slot).addr, Detach(s, root, slot);
    DetachKeepsInv(s, root, slot);
    CleanShrinks(d, pdp, 3, 0);
    var c := CleanPageMap(d, pdp, 3, 0);
    forall f
      ensures Removed(d, c, f) || f == pdp <==> f in SlotFrames(s, root, slot)
    {
      CleanedFrames(s, root, slot, f);
    }
    hide CleanPageMap, SlotFrames, Under, Inv;
    DetachFreesNothing(s, root, slot, Release(c, pdp));
    ReleaseTakesFrames(s, d, c, pdp, SlotFrames(s, root, slot));
  }

  lemma ReleaseTakesFrames(s: Vm, d: Vm, c: Vm, pdp: nat, frames: set<nat>)
    requires FreedOnce(d, c) && ForestGrows(c, d) && RemovedBelow(d, c, pdp, 3) && pdp in c.level
    requires d.level == s.level && d.used == s.used
    requires forall f :: Removed(d, c, f) || f == pdp <==> f in frames
    ensures var s' := Release(c, pdp);
            && s'.level.Keys == s.level.Keys - frames
            && s'.used == s.used - frames
            && FreedOnce(d, s')
  {
    ReleaseFreesOnce(d, c, pdp);
    hide FreedOnce;
  }

  lemma DetachFreesNothing(s: Vm, root: nat, slot: nat, s': Vm)
    requires slot < ENTRIES
    ensures NewlyFreed(s, s') == NewlyFreed(Detach(s, root, slot), s')
    ensures FreedOnce(Detach(s, root, slot), s') ==> FreedOnce(s, s')
  {
    var d := Detach(s, root, slot);
    assert forall f :: Removed(s, s', f) <==> Removed(d, s', f);
  }

  lemma NothingBelowAbsentEntry(s: Vm, f: nat, pm: nat, level: nat, i: nat)
    requires Inv(s) && i < ENTRIES && !EntryAt(s.memory, pm, i).present
    ensures !BelowEntry(s, f, pm, level, i)
  {
  }

  /** Below a slot that was empty hang exactly the frames taken since. */
  lemma SlotFramesAreNew(s: Vm, grown: Vm, root: nat, slot: nat)
    requires Inv(s) && slot < ENTRIES && !EntryAt(s.memory, root, slot).present
    requires ForestGrows(s, grown) && GrownInEntry(s, grown, root, 4, slot)
    ensures SlotFrames(grown, root, slot) == grown.level.Keys - s.level.Keys
  {
    forall f | f in grown.level
      ensures BelowEntry(grown, f, root, 4, slot) <==> f !in s.level
    {
      if f in s.level {
        BelowEntryGrows(s, grown, f, root, 4, slot);
        NothingBelowAbsentEntry(s, f, root, 4, slot);
      }
    }
  }

  /** Everything marked since, and nothing else, hangs below the slot the requests went to. */
  lemma RequestsTake(s: Vm, root: nat, slot: nat, requests: seq<Request>)
    requires Inv(s) && root in s.level && s.level[root] == 4 && OwnEntry(4, slot)
    requires !EntryAt(s.memory, root, slot).present
    requires forall k | 0 <= k < |requests| :: InSlot(requests[k], slot)
    ensures var grown := SetupAll(s, root, requests);
            var taken := grown.level.Keys - s.level.Keys;
            && Inv(grown) && ForestGrows(s, grown) && root in grown.level && grown.level[root] == 4
            && s.level.Keys <= grown.level.Keys
            && grown.used == s.used + taken && taken !! s.used && SlotFrames(grown, root, slot) == taken
  {
    hide SetupAll;
    SetupAllGrows(s, root, slot, requests);
    SlotFramesAreNew(s, SetupAll(s, root, requests), root, slot);
  }

  /**
   * Any sequence of requests in one PML4 slot that was empty, successful or not, followed by CleanPageMaps on that
   * slot, frees exactly the frames the requests took, each once: the allocator's marks are as before.
   */
  lemma TeardownRestoresFrames(s: Vm, root: nat, slot: nat, requests: seq<Request>)
    requires Inv(s) && root in s.level && s.level[root] == 4 && OwnEntry(4, slot)
    requires !EntryAt(s.memory, root, slot).present
    requires forall k | 0 <= k < |requests| :: InSlot(requests[k], slot)
    requires EntryAt(SetupAll(s, root, requests).memory, root, slot).present
    ensures var grown := SetupAll(s, root, requests);
            var s' := CleanSlot(grown, root, slot);
            && Inv(s') && s'.used == s.used && s'.level.Keys == s.level.Keys
            && FreedOnce(grown, s') && forall f :: Removed(grown, s', f) <==> f in grown.used && f !in s.used
  {
    hide Inv, SetupAll, CleanSlot, SlotFrames;
    var grown := SetupAll(s, root, requests);
    RequestsTake(s, root, slot, requests);
    CleanSlotKeepsInv(grown, root, slot);
    CleanSlotFrees(grown, root, slot);
  }

  // ---------------------------------------------------------------- counting the frames of one page

  /** Tables and page still absent on the path of an address. */
  ghost function Missing(memory: map<nat, Table>, table: nat, level: nat, a: LinearAddress): nat
    requires 1 <= level <= 4 && a.Valid()
    decreases level
  {
    var e := EntryAt(memory, table, a.Part(level));
    if !e.present then level else if level == 1 then 0 else Missing(memory, e.addr, level - 1, a)
  }

  lemma {:induction false} MissingKept(s: Vm, m': map<nat, Table>, pm: nat, f: nat, level: nat, a: LinearAddress)
    requires Leveled(s) && Down(s) && CanWalk(s, f, level, a) && pm in s.level && s.level[pm] > level
    requires forall g | g in s.level && g != pm :: TableAt(m', g) == TableAt(s.memory, g)
    ensures Missing(m', f, level, a) == Missing(s.memory, f, level, a)
    decreases level
  {
    if EntryAt(s.memory, f, a.Part(level)).present && level > 1 {
      ChildOf(s, f, level, a.Part(level));
      MissingKept(s, m', pm, EntryAt(s.memory, f, a.Part(level)).addr, level - 1, a);
    }
  }

  /** Entering an entry takes one frame exactly when the entry was absent. */
  lemma EnterTakes(s: Vm, pm: nat, level: nat, i: nat)
    requires i < ENTRIES && Entered(s, pm, level, i).ok
    ensures |Entered(s, pm, level, i).vm.used| == |s.used| + if EntryAt(s.memory, pm, i).present then 0 else 1
  {
    var c := Entered(s, pm, level, i);
    if !EntryAt(s.memory, pm, i).present {
      assert FreeRun(s.used, c.frame, 1);
      assert c.vm.used == s.used + {c.frame};
    }
  }

  /** What is missing below an entered entry: everything if it was absent, else the same as before. */
  lemma MissingBelowEntered(s: Vm, pm: nat, level: nat, a: LinearAddress)
    requires CanSetup(s, pm, level, a) && level > 1 && Entered(s, pm, level, a.Part(level)).ok
    ensures var c := Entered(s, pm, level, a.Part(level));
            Missing(c.vm.memory, c.frame, level - 1, a) ==
              Missing(s.memory, pm, level, a) - if EntryAt(s.memory, pm, a.Part(level)).present then 0 else 1
  {
    hide Entered, Up, TableAt;
    var i := a.Part(level);
    var c := Entered(s, pm, level, i);
    EnteredChangesOneEntry(s, pm, level, i);
    EnteredEntry(s, pm, level, i);
    if EntryAt(s.memory, pm, i).present {
      ChildOf(s, pm, level, i);
      MissingKept(s, c.vm.memory, pm, c.frame, level - 1, a);
    }
  }

  lemma EnteredEntry(s: Vm, pm: nat, level: nat, i: nat)
    requires Inv(s) && pm in s.level && s.level[pm] == level >= 1 && OwnEntry(level, i)
    requires Entered(s, pm, level, i).ok
    ensures var c := Entered(s, pm, level, i);
            EntryAt(c.vm.memory, pm, i).addr == c.frame
    ensures EntryAt(s.memory, pm, i).present ==> EntryAt(s.memory, pm, i).addr == Entered(s, pm, level, i).frame
  {
    EnterEntry(s, pm, level, i);
  }

  /** Mapping one page takes exactly the frames that were absent on its path. */
  lemma {:induction false} SetupOneTakes(s: Vm, pm: nat, level: nat, a: LinearAddress)
    requires CanSetup(s, pm, level, a) && SetupPageMap(s, pm, level, a, 1).ok
    ensures |SetupPageMap(s, pm, level, a, 1).vm.used| == |s.used| + Missing(s.memory, pm, level, a)
    decreases level
  {
    var i := a.Part(level);
    var c := Entered(s, pm, level, i);
    SetupOneIsFill(s, pm, level, a);
    EnterTakes(s, pm, level, i);
    if level > 1 {
      MissingBelowEntered(s, pm, level, a);
      EnteredCanFillChild(s, pm, level, a);
      SetupOneTakes(c.vm, c.frame, level - 1, a);
    }
  }

  lemma SetupOneIsFill(s: Vm, pm: nat, level: nat, a: LinearAddress)
    requires 1 <= level <= 4 && a.Valid() && SetupPageMap(s, pm, level, a, 1).ok
    ensures SetupPageMap(s, pm, level, a, 1) == FillEntry(s, pm, level, a, 1)
    ensures Entered(s, pm, level, a.Part(level)).ok
    ensures var c := Entered(s, pm, level, a.Part(level));
            if level == 1 then FillEntry(s, pm, level, a, 1).vm == c.vm
            else SetupPageMap(c.vm, c.frame, level - 1, a, 1).ok &&
                 FillEntry(s, pm, level, a, 1).vm == SetupPageMap(c.vm, c.frame, level - 1, a, 1).vm
  {
    FillCounts(s, pm, level, a, 1);
    PageNumberBound(a, level - 1);
    if a.Part(level) < 511 {
      NextPageNumber(a, level);
    }
  }

  /** Next to a mapped page of the same lowest table, an unmapped page lacks only its own frame. */
  lemma {:induction false} NeighbourLacksOne(m: map<nat, Table>, f: nat, level: nat, a: LinearAddress, b: LinearAddress)
    requires 1 <= level <= 4 && a.Valid() && b.Valid() && forall l | 2 <= l <= level :: b.Part(l) == a.Part(l)
    requires Translate(m, f, level, a).Mapped? && Translate(m, f, level, b).Unmapped?
    ensures Missing(m, f, level, b) == 1
    decreases level
  {
    if level > 1 {
      NeighbourLacksOne(m, EntryAt(m, f, a.Part(level)).addr, level - 1, a, b);
    }
  }

  // ---------------------------------------------------------------- what CleanPageMaps unmaps

  /** The PML4 itself only loses the slot. */
  lemma CleanSlotEntries(s: Vm, root: nat, slot: nat, j: nat)
    requires Inv(s) && CanCleanSlot(s, root, slot) && j < ENTRIES
    ensures EntryAt(CleanSlot(s, root, slot).memory, root, j) == if j == slot then NO_ENTRY
              else EntryAt(s.memory, root, j)
  {
    var pdp, detached := EntryAt(s.memory, root, slot).addr, Detach(s, root, slot);
    DetachKeepsInv(s, root, slot);
    CleanShrinks(detached, pdp, 3, 0);
    hide Inv, ForestGrows, FreedOnce, RemovedBelow, CleanPageMap;
    assert !Under(detached, root, pdp, 3);
    DetachEntries(s, root, slot, root, j);
  }

  /** Tables below the other slots are not touched. */
  lemma CleanSlotKeepsSibling(s: Vm, root: nat, slot: nat, other: nat, b: LinearAddress)
    requires Inv(s) && CanCleanSlot(s, root, slot) && b.Valid()
    requires other in s.level && s.level[other] == 3 && other != EntryAt(s.memory, root, slot).addr
    ensures Translate(CleanSlot(s, root, slot).memory, other, 3, b) == Translate(s.memory, other, 3, b)
  {
    hide Up, ForestGrows, FreedOnce, RemovedBelow, CleanPageMap, Translate;
    var pdp, detached := EntryAt(s.memory, root, slot).addr, Detach(s, root, slot);
    DetachKeepsInv(s, root, slot);
    CleanShrinks(detached, pdp, 3, 0);
    SiblingKept(detached, CleanSlot(s, root, slot).memory, pdp, other, 3, b);
    DetachKeepsSibling(s, root, slot, other, b);
  }

  lemma DetachKeepsSibling(s: Vm, root: nat, slot: nat, other: nat, b: LinearAddress)
    requires Inv(s) && CanCleanSlot(s, root, slot) && b.Valid() && other in s.level && s.level[other] == 3
    ensures Translate(Detach(s, root, slot).memory, other, 3, b) == Translate(s.memory, other, 3, b)
  {
    TranslateReadsSubtree(s, Detach(s, root, slot).memory, other, 3, b);
  }

  /** Cleaning a slot unmaps every address of that slot, and leaves every other walk of its PML4 as it was. */
  lemma CleanSlotUnmaps(s: Vm, root: nat, slot: nat, b: LinearAddress)
    requires Inv(s) && CanCleanSlot(s, root, slot) && CanWalk(s, root, 4, b)
    ensures Translate(CleanSlot(s, root, slot).memory, root, 4, b)
         == if b.Part(4) == slot then Unmapped else Translate(s.memory, root, 4, b)
  {
    CleanSlotEntries(s, root, slot, b.Part(4));
    hide CleanSlot;
    if b.Part(4) != slot && EntryAt(s.memory, root, b.Part(4)).present {
      ChildOf(s, root, 4, slot);
      ChildOf(s, root, 4, b.Part(4));
      CleanSlotKeepsSibling(s, root, slot, EntryAt(s.memory, root, b.Part(4)).addr, b);
    }
  }
}
