/** Creating, filling, cleaning and freeing a process's address space (kernel/terminal.cpp). */
module AddressSpaces {
  import opened MemoryManager
  import opened Paging
  import opened PageTables
  import opened Teardown
  import Tasks

  // ---------------------------------------------------------------- boot

  /** After boot the main task and the idle task run on the boot tables, and no page tables of a process exist. */
  ghost function BootVm(memory: map<nat, Table>, used: set<nat>, begin: nat, end: nat, boot: nat): Vm {
    Vm(memory, used, begin, end, [], map[boot := 4], map[], map[Tasks.MAIN_TASK := boot, Tasks.IDLE_TASK := boot], boot,
       TableAt(memory, boot)[..256])
  }

  /** The boot tables map nothing in the upper half, and their frame is marked. */
  ghost predicate CanBoot(memory: map<nat, Table>, used: set<nat>, boot: nat) {
    && boot in used && (forall f | f in used :: f < FRAME_COUNT)
    && forall i | 256 <= i < ENTRIES :: !EntryAt(memory, boot, i).present
  }

  lemma BootedInv(memory: map<nat, Table>, used: set<nat>, begin: nat, end: nat, boot: nat)
    requires CanBoot(memory, used, boot)
    ensures Inv(BootVm(memory, used, begin, end, boot))
  {
  }

  // ---------------------------------------------------------------- SetupPML4

  function NewPml4(kernelHalf: Table): Table {
    seq(ENTRIES, i requires 0 <= i < ENTRIES => if i < 256 then kernelHalf[i] else NO_ENTRY)
  }

  /** A fresh PML4 that shares the lower half of the current one becomes the task's. */
  ghost function WithPml4(s: Vm, task: nat, root: nat): Vm
    requires task in s.cr3
  {
    s.(memory := s.memory[root := NewPml4(TableAt(s.memory[root := EmptyTable()], s.cr3[task]))],
       used := s.used + {root}, level := s.level[root := 4], cr3 := s.cr3[task := root])
  }

  ghost function SetupPml4(s: Vm, task: nat): (Vm, bool)
    requires task in s.cr3
  {
    match OneFrame(s.used, s.begin, s.end)
    case Block(root) => (WithPml4(s, task, root), true)
    case _ => (s, false)
  }

  lemma WithPml4Entries(s: Vm, task: nat, root: nat, f: nat, j: nat)
    requires task in s.cr3 && s.cr3[task] != root && j < ENTRIES
    ensures EntryAt(WithPml4(s, task, root).memory, f, j) ==
              if f != root then EntryAt(s.memory, f, j)
              else if j < 256 then EntryAt(s.memory, s.cr3[task], j)
              else NO_ENTRY
  {
  }

  lemma WithPml4KeepsForest(s: Vm, task: nat, root: nat)
    requires Inv(s) && task in s.cr3 && root !in s.used && root < FRAME_COUNT
    ensures var s' := WithPml4(s, task, root); Leveled(s') && Down(s') && Up(s') && Roots(s')
  {
    hide EntryAt;
    var s' := WithPml4(s, task, root);
    forall f: nat, j: nat | Present(s', f, j)
      ensures Parented(s', EntryAt(s'.memory, f, j).addr, f, j)
    {
      WithPml4Entries(s, task, root, f, j);
      assert Present(s, f, j);
    }
    forall c | c in s'.parent
      ensures PointsTo(s', s'.parent[c], c)
    {
      assert PointsTo(s, s.parent[c], c);
      WithPml4Entries(s, task, root, s.parent[c].table, s.parent[c].index);
    }
  }

  lemma WithPml4KeepsKernelHalf(s: Vm, task: nat, root: nat)
    requires Inv(s) && task in s.cr3 && root !in s.used
    ensures KernelHalf(WithPml4(s, task, root))
  {
    var s' := WithPml4(s, task, root);
    forall r, j | r in s'.level && s'.level[r] == 4 && 0 <= j < 256
      ensures EntryAt(s'.memory, r, j) == s'.kernel[j]
    {
      WithPml4Entries(s, task, root, r, j);
    }
  }

  lemma SetupPml4KeepsInv(s: Vm, task: nat)
    requires Inv(s) && task in s.cr3
    ensures Inv(SetupPml4(s, task).0)
  {
    var r := OneFrame(s.used, s.begin, s.end);
    if r.Block? {
      assert FreeRun(s.used, r.start, 1);
      WithPml4KeepsForest(s, task, r.start);
      WithPml4KeepsKernelHalf(s, task, r.start);
    }
  }

  // ---------------------------------------------------------------- CleanPageMaps

  /** The PML4 slot is zeroed before the table it pointed to is cleaned. */
  ghost function Detach(s: Vm, root: nat, slot: nat): Vm
    requires slot < ENTRIES
  {
    s.(memory := s.memory[root := TableAt(s.memory, root)[slot := NO_ENTRY]],
       parent := s.parent - {EntryAt(s.memory, root, slot).addr})
  }

  /** A frame without parent and without children, handed back to the allocator. */
  ghost function Release(s: Vm, f: nat): Vm {
    s.(used := s.used - {f}, freed := s.freed + [f], level := s.level - {f})
  }

  ghost function CleanSlot(s: Vm, root: nat, slot: nat): Vm
    requires slot < ENTRIES
  {
    var pdp := EntryAt(s.memory, root, slot).addr;
    Release(CleanPageMap(Detach(s, root, slot), pdp, 3, 0), pdp)
  }

  ghost predicate CanCleanSlot(s: Vm, root: nat, slot: nat) {
    root in s.level && s.level[root] == 4 && OwnEntry(4, slot) && EntryAt(s.memory, root, slot).present
  }

  lemma DetachEntries(s: Vm, root: nat, slot: nat, f: nat, j: nat)
    requires slot < ENTRIES && j < ENTRIES
    ensures EntryAt(Detach(s, root, slot).memory, f, j) ==
              if f == root && j == slot then NO_ENTRY else EntryAt(s.memory, f, j)
  {
  }

  lemma DetachKeepsInv(s: Vm, root: nat, slot: nat)
    requires Inv(s) && CanCleanSlot(s, root, slot)
    ensures var pdp := EntryAt(s.memory, root, slot).addr;
            Inv(Detach(s, root, slot)) && Parented(s, pdp, root, slot) && s.level[pdp] == 3
  {
    var s', pdp := Detach(s, root, slot), EntryAt(s.memory, root, slot).addr;
    ChildOf(s, root, 4, slot);
    forall f: nat, j: nat | Present(s', f, j)
      ensures Parented(s', EntryAt(s'.memory, f, j).addr, f, j)
    {
      DetachEntries(s, root, slot, f, j);
      assert Present(s, f, j);
    }
    forall c | c in s'.parent
      ensures PointsTo(s', s'.parent[c], c)
    {
      assert PointsTo(s, s.parent[c], c);
      DetachEntries(s, root, slot, s.parent[c].table, s.parent[c].index);
    }
    forall r, j | r in s'.level && s'.level[r] == 4 && 0 <= j < 256
      ensures EntryAt(s'.memory, r, j) == s'.kernel[j]
    {
      DetachEntries(s, root, slot, r, j);
    }
  }

  lemma ReleaseKeepsInv(s: Vm, f: nat)
    requires Inv(s) && f in s.level && s.level[f] <= 3 && f !in s.parent && Childless(s, f)
    ensures Inv(Release(s, f))
  {
    var s' := Release(s, f);
    forall g: nat, j: nat | Present(s', g, j)
      ensures Parented(s', EntryAt(s'.memory, g, j).addr, g, j)
    {
      assert Present(s, g, j);
    }
    forall g | g in s'.parent
      ensures PointsTo(s', s'.parent[g], g) && s'.parent[g].table in s'.level
    {
      assert PointsTo(s, s.parent[g], g);
      NoChildOfChildless(s, f, g);
    }
    forall r, j | r in s'.level && s'.level[r] == 4 && 0 <= j < 256
      ensures EntryAt(s'.memory, r, j) == s'.kernel[j]
    {
    }
  }

  lemma CleanSlotKeepsInv(s: Vm, root: nat, slot: nat)
    requires Inv(s) && CanCleanSlot(s, root, slot)
    ensures Inv(CleanSlot(s, root, slot))
  {
    var pdp, detached := EntryAt(s.memory, root, slot).addr, Detach(s, root, slot);
    DetachKeepsInv(s, root, slot);
    CleanShrinks(detached, pdp, 3, 0);
    ReleaseKeepsInv(CleanPageMap(detached, pdp, 3, 0), pdp);
  }

  // ---------------------------------------------------------------- FreePML4

  /** The PML4 is handed back and the task returns to the boot page tables; what still hangs below it stays marked. */
  ghost function FreePml4(s: Vm, task: nat): Vm {
    var root := if task in s.cr3 then s.cr3[task] else s.boot;
    s.(used := s.used - {root}, freed := s.freed + [root], level := s.level - {root},
       parent := (map c | c in s.parent && s.parent[c].table != root :: s.parent[c]),
       cr3 := s.cr3[task := s.boot])
  }

  /** The task runs on page tables of its own. */
  ghost predicate OwnsPml4(s: Vm, task: nat) {
    task in s.cr3 && s.cr3[task] != s.boot && forall u | u in s.cr3 && u != task :: s.cr3[u] != s.cr3[task]
  }

  lemma FreePml4KeepsLinks(s: Vm, task: nat)
    requires Inv(s) && OwnsPml4(s, task)
    ensures Down(FreePml4(s, task)) && Up(FreePml4(s, task))
  {
    hide KernelHalf, Roots;
    var s' := FreePml4(s, task);
    forall g: nat, j: nat | Present(s', g, j)
      ensures Parented(s', EntryAt(s'.memory, g, j).addr, g, j)
    {
      assert Present(s, g, j);
    }
    forall g | g in s'.parent
      ensures PointsTo(s', s'.parent[g], g)
    {
      assert PointsTo(s, s.parent[g], g);
    }
  }

  lemma FreePml4KeepsInv(s: Vm, task: nat)
    requires Inv(s) && OwnsPml4(s, task)
    ensures Inv(FreePml4(s, task))
  {
    hide Down, Up;
    FreePml4KeepsLinks(s, task);
    var s' := FreePml4(s, task);
    forall r, j | r in s'.level && s'.level[r] == 4 && 0 <= j < 256
      ensures EntryAt(s'.memory, r, j) == s'.kernel[j]
    {
    }
  }
}
