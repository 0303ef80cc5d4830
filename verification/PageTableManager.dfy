/** The page-table routines of kernel/terminal.cpp as they update memory and allocator in place. */
module PageTableManager {
  import opened MemoryManager
  import opened Paging
  import opened PageTables
  import opened Teardown
  import opened AddressSpaces
  import Tasks

  lemma LevelOfCleaned(s: Vm, pm: nat, pageMapLevel: nat, i: nat)
    requires CanClean(s, pm, pageMapLevel, i)
    ensures 1 <= pageMapLevel <= 3
  {
  }

  /** One iteration of the cleaning loop. */
  lemma CleanUnfolds(s: Vm, pm: nat, pageMapLevel: nat, i: nat)
    requires CanClean(s, pm, pageMapLevel, i) && i < ENTRIES
    ensures pageMapLevel >= 1
    ensures EntryAt(s.memory, pm, i).present ==>
              Teardown.CleanPageMap(s, pm, pageMapLevel, i) ==
              Teardown.CleanPageMap(WithoutEntry(s, pm, pageMapLevel, i), pm, pageMapLevel, i + 1)
    ensures !EntryAt(s.memory, pm, i).present ==>
              CanClean(s, pm, pageMapLevel, i + 1) &&
              Teardown.CleanPageMap(s, pm, pageMapLevel, i) == Teardown.CleanPageMap(s, pm, pageMapLevel, i + 1)
  {
  }

  lemma CleanEnds(s: Vm, pm: nat, pageMapLevel: nat)
    requires pageMapLevel >= 1
    ensures Teardown.CleanPageMap(s, pm, pageMapLevel, ENTRIES) == s
  {
  }

  lemma EntryIsFrame(s: Vm, pm: nat, pageMapLevel: nat, i: nat)
    requires CanClean(s, pm, pageMapLevel, i) && i < ENTRIES && EntryAt(s.memory, pm, i).present
    ensures EntryAt(s.memory, pm, i).addr < FRAME_COUNT
    ensures pageMapLevel > 1 ==> CanClean(s, EntryAt(s.memory, pm, i).addr, pageMapLevel - 1, 0)
  {
    ChildOf(s, pm, pageMapLevel, i);
  }

  lemma OwnPml4IsFrame(s: Vm, task: nat)
    requires Inv(s) && OwnsPml4(s, task)
    ensures s.cr3[task] < FRAME_COUNT
  {
  }

  lemma DetachedCanBeCleaned(s: Vm, root: nat, slot: nat)
    requires Inv(s) && CanCleanSlot(s, root, slot)
    ensures EntryAt(s.memory, root, slot).addr < FRAME_COUNT
    ensures CanClean(Detach(s, root, slot), EntryAt(s.memory, root, slot).addr, 3, 0)
  {
    DetachKeepsInv(s, root, slot);
  }

  /** The entry of an iteration, and what is filled below it. */
  lemma FillUnfolds(s: Vm, pm: nat, pageMapLevel: nat, a: LinearAddress, n: nat)
    requires 1 <= pageMapLevel <= 4 && a.Valid() && n > 0
    ensures var child := Entered(s, pm, pageMapLevel, a.Part(pageMapLevel));
            FillEntry(s, pm, pageMapLevel, a, n) ==
              if !child.ok then Setup(child.vm, n, false)
              else if pageMapLevel == 1 then Setup(child.vm, n - 1, true)
              else
                var below := PageTables.SetupPageMap(child.vm, child.frame, pageMapLevel - 1, a, n);
                if below.ok then below else Setup(below.vm, n, false)
  {
  }

  class PageTableManager {
    const manager: BitmapMemoryManager
    const boot: nat
    var memory: map<nat, Table>
    // the CR3 value each task runs with
    var cr3: map<nat, nat>
    ghost var freed: seq<nat>
    ghost var level: map<nat, nat>
    ghost var parent: map<nat, Slot>
    ghost var kernel: seq<PageMapEntry>

    ghost predicate Valid()
      reads this, manager
    {
      manager.Valid()
    }

    ghost function State(): Vm
      reads this, manager, manager.allocMap
      requires Valid()
    {
      Vm(memory, manager.Allocated(), manager.rangeBegin, manager.rangeEnd, freed, level, parent, cr3, boot, kernel)
    }

    /** The main task runs on the boot tables, and the idle task is made to. */
    constructor (manager: BitmapMemoryManager, boot: nat, memory: map<nat, Table>)
      requires manager.Valid() && CanBoot(memory, manager.Allocated(), boot)
      ensures Valid() && this.manager == manager && this.boot == boot && Inv(State())
      ensures State() == BootVm(memory, manager.Allocated(), manager.rangeBegin, manager.rangeEnd, boot)
    {
      this.manager, this.boot, this.memory := manager, boot, memory;
      cr3 := map[Tasks.MAIN_TASK := boot];
      freed, level, parent := [], map[boot := 4], map[];
      kernel := TableAt(memory, boot)[..256];
      new;
      BootedInv(memory, manager.Allocated(), manager.rangeBegin, manager.rangeEnd, boot);
      InitContext(Tasks.IDLE_TASK, Tasks.MAIN_TASK);
    }

    /** A zeroed frame, if one is left. */
    method NewPageMap() returns (frame: nat, ok: bool)
      requires Valid()
      modifies this`memory, manager.allocMap
      ensures Valid()
      ensures match OneFrame(old(State()).used, manager.rangeBegin, manager.rangeEnd)
              case Block(f) =>
                ok && frame == f && f < FRAME_COUNT &&
                State() == old(State()).(memory := old(memory)[f := EmptyTable()], used := old(State()).used + {f})
              case _ => !ok && State() == old(State())
    {
      var r := manager.Allocate(1);
      FirstFitIsExact(old(manager.Allocated()), manager.rangeBegin, manager.rangeEnd, 1, r,
                      OneFrame(old(manager.Allocated()), manager.rangeBegin, manager.rangeEnd));
      if !r.Block? {
        return 0, false;
      }
      memory := memory[r.start := EmptyTable()];
      assert Run(r.start, 1) == {r.start} by {
        assert Run(r.start, 0) == {};
      }
      return r.start, true;
    }

    method SetNewPageMapIfNotPresent(pm: nat, pageMapLevel: nat, i: nat) returns (child: nat, ok: bool)
      requires Valid() && i < ENTRIES
      modifies this`memory, this`level, this`parent, manager.allocMap
      ensures Valid()
      ensures Child(State(), child, ok) == PageTables.SetNewPageMapIfNotPresent(old(State()), pm, pageMapLevel, i)
    {
      hide TableAt, FirstFit;
      if EntryAt(memory, pm, i).present {
        return EntryAt(memory, pm, i).addr, true;
      }
      child, ok := NewPageMap();
      if !ok {
        return 0, false;
      }
      var e := EntryAt(memory, pm, i).SetPointer(child * PAGE_BYTES);
      memory := memory[pm := TableAt(memory, pm)[i := e.(present := true)]];
      level := level[child := if pageMapLevel > 0 then pageMapLevel - 1 else 0];
      parent := parent[child := Slot(pm, i)];
    }

    method SetupPageMap(pm: nat, pageMapLevel: nat, a0: ValidAddress, n: nat) returns (remaining: nat, ok: bool)
      requires Valid() && 1 <= pageMapLevel <= 4
      modifies this`memory, this`level, this`parent, manager.allocMap
      ensures Valid()
      ensures Setup(State(), remaining, ok) == PageTables.SetupPageMap(old(State()), pm, pageMapLevel, a0, n)
      decreases pageMapLevel
    {
      hide TableAt, PageTables.SetupPageMap, FillEntry, BitmapMemoryManager.Allocated;
      var a: LinearAddress := a0;
      remaining := n;
      while remaining > 0
        invariant Valid() && a.Valid()
        invariant PageTables.SetupPageMap(State(), pm, pageMapLevel, a, remaining) ==
                  PageTables.SetupPageMap(old(State()), pm, pageMapLevel, a0, n)
        decreases ENTRIES - a.Part(pageMapLevel)
      {
        var i := a.Part(pageMapLevel);
        ghost var before := State();
        SetupUnfolds(before, pm, pageMapLevel, a, remaining);
        FillUnfolds(before, pm, pageMapLevel, a, remaining);
        var child, entered := SetNewPageMapIfNotPresent(pm, pageMapLevel, i);
        if !entered {
          return remaining, false;
        }
        var t := TableAt(memory, pm);
        memory := memory[pm := t[i := t[i].(writable := true, user := true)]];
        assert Child(State(), child, true) == Entered(before, pm, pageMapLevel, i);
        ghost var filled := FillEntry(before, pm, pageMapLevel, a, remaining);
        if pageMapLevel == 1 {
          remaining := remaining - 1;
        } else {
          var rest, filledBelow := SetupPageMap(child, pageMapLevel - 1, a, remaining);
          if !filledBelow {
            return remaining, false;
          }
          remaining := rest;
        }
        assert filled == Setup(State(), remaining, true);
        if i == 511 {
          return remaining, true;
        }
        NextPageNumber(a, pageMapLevel);
        ghost var next := NextEntry(a, pageMapLevel);
        a := a.SetPart(pageMapLevel, i + 1);
        var l := pageMapLevel - 1;
        while l >= 1
          invariant 0 <= l < pageMapLevel
          invariant ZeroParts(a, l) == next
        {
          a := a.SetPart(l, 0);
          l := l - 1;
        }
        assert a == next;
      }
      SetupUnfolds(State(), pm, pageMapLevel, a, 0);
      ok := true;
    }

    method SetupPageMaps(task: nat, a: ValidAddress, n: nat) returns (ok: bool)
      requires Valid() && task in cr3
      modifies this`memory, this`level, this`parent, manager.allocMap
      ensures Valid()
      ensures var r := PageTables.SetupPageMap(old(State()), cr3[task], 4, a, n); State() == r.vm && ok == r.ok
    {
      var remaining;
      remaining, ok := SetupPageMap(cr3[task], 4, a, n);
    }

    method Free(frame: nat)
      requires Valid() && frame < FRAME_COUNT
      modifies this`freed, manager.allocMap
      ensures Valid()
      ensures State() == old(State()).(used := old(State()).used - {frame}, freed := old(State()).freed + [frame])
    {
      manager.Free(frame, 1);
      assert Run(frame, 1) == {frame} by {
        assert Run(frame, 0) == {};
      }
      freed := freed + [frame];
    }

    method CleanPageMap(pm: nat, pageMapLevel: nat)
      requires Valid() && CanClean(State(), pm, pageMapLevel, 0)
      modifies this`memory, this`level, this`parent, this`freed, manager.allocMap
      ensures Valid()
      ensures State() == Teardown.CleanPageMap(old(State()), pm, pageMapLevel, 0)
      decreases pageMapLevel, 1
    {
      hide CanClean, Teardown.CleanPageMap, WithoutEntry;
      var i := 0;
      LevelOfCleaned(State(), pm, pageMapLevel, 0);
      while i < ENTRIES
        invariant 0 <= i <= ENTRIES
        invariant Valid() && CanClean(State(), pm, pageMapLevel, i)
        invariant Teardown.CleanPageMap(State(), pm, pageMapLevel, i) ==
                  Teardown.CleanPageMap(old(State()), pm, pageMapLevel, 0)
      {
        var entry := EntryAt(memory, pm, i);
        CleanUnfolds(State(), pm, pageMapLevel, i);
        if entry.present {
          FreeEntry(pm, pageMapLevel, i, entry);
        }
        i := i + 1;
      }
      CleanEnds(State(), pm, pageMapLevel);
    }

    /** The part of the loop body behind the test for a present entry. */
    method FreeEntry(pm: nat, pageMapLevel: nat, i: nat, entry: PageMapEntry)
      requires Valid() && CanClean(State(), pm, pageMapLevel, i) && i < ENTRIES
      requires entry == EntryAt(memory, pm, i) && entry.present
      modifies this`memory, this`level, this`parent, this`freed, manager.allocMap
      ensures Valid() && CanClean(State(), pm, pageMapLevel, i + 1)
      ensures State() == WithoutEntry(old(State()), pm, pageMapLevel, i)
      decreases pageMapLevel, 0
    {
      hide Under, CanClean, Teardown.CleanPageMap, CanDrop, Shrunk, Childless, BitmapMemoryManager.Allocated;
      ghost var below := CleanEntry(State(), pm, pageMapLevel, i);
      EntryIsFrame(State(), pm, pageMapLevel, i);
      if pageMapLevel > 1 {
        CleanPageMap(entry.addr, pageMapLevel - 1);
      }
      DropClearsEntry(below, pm, pageMapLevel, i, entry.addr);
      Free(entry.addr);
      memory := memory[pm := TableAt(memory, pm)[i := NO_ENTRY]];
      level, parent := level - {entry.addr}, parent - {entry.addr};
      assert State() == Drop(below, pm, i, entry.addr);
    }

    method CleanPageMaps(task: nat, a: ValidAddress)
      requires Valid() && Inv(State()) && task in cr3 && CanCleanSlot(State(), cr3[task], a.pml4)
      modifies this`memory, this`level, this`parent, this`freed, manager.allocMap
      ensures Valid()
      ensures State() == CleanSlot(old(State()), cr3[task], a.pml4)
    {
      hide Inv, CanClean, Teardown.CleanPageMap;
      var pml4 := cr3[task];
      var pdp := EntryAt(memory, pml4, a.pml4).addr;
      DetachedCanBeCleaned(State(), pml4, a.pml4);
      memory := memory[pml4 := TableAt(memory, pml4)[a.pml4 := NO_ENTRY]];
      parent := parent - {pdp};
      assert State() == Detach(old(State()), pml4, a.pml4);
      CleanPageMap(pdp, 3);
      Free(pdp);
      level := level - {pdp};
    }

    method SetupPML4(task: nat) returns (ok: bool)
      requires Valid() && task in cr3
      modifies this`memory, this`level, this`cr3, manager.allocMap
      ensures Valid()
      ensures (State(), ok) == SetupPml4(old(State()), task)
    {
      hide BitmapMemoryManager.Allocated;
      var pml4;
      pml4, ok := NewPageMap();
      if ok {
        var current := TableAt(memory, cr3[task]);
        memory := memory[pml4 := current[..256] + TableAt(memory, pml4)[256..]];
        assert TableAt(memory, pml4) == NewPml4(current);
        assert memory == old(memory)[pml4 := NewPml4(current)];
        cr3 := cr3[task := pml4];
        level := level[pml4 := 4];
      }
    }

    method FreePML4(task: nat)
      requires Valid() && Inv(State()) && OwnsPml4(State(), task)
      modifies this`level, this`parent, this`freed, this`cr3, manager.allocMap
      ensures Valid()
      ensures State() == FreePml4(old(State()), task)
    {
      hide Inv, BitmapMemoryManager.Allocated;
      OwnPml4IsFrame(State(), task);
      var pml4 := cr3[task];
      cr3 := cr3[task := boot];
      Free(pml4);
      level := level - {pml4};
      parent := map c | c in parent && parent[c].table != pml4 :: parent[c];
    }

    /** A new task runs on the page tables its creator runs on. */
    method InitContext(task: nat, creator: nat)
      requires Valid() && creator in cr3
      modifies this`cr3
      ensures Valid()
      ensures State() == old(State()).(cr3 := old(cr3)[task := old(cr3)[creator]])
    {
      cr3 := cr3[task := cr3[creator]];
    }
  }
}
