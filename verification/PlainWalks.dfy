/**
 * The full page walk of the Intel SDM, Volume 3A, section 4.5, in which an entry of the two middle levels may map a
 * large
 * page. The kernel's process tables have no such entry, so the walk is the one of PageMapping.dfy.
 */
module PlainWalks {
  import opened MemoryManager
  import opened Paging
  import opened PageTables
  import opened PageMapping
  import opened Teardown
  import opened AddressSpaces
  import opened Isolation

  /** Where the processor's walk ends; a large page is mapped by an entry of level 2 or 3. */
  datatype Walk = Fault | Page(frame: nat, open: bool) | LargePage(level: nat, frame: nat)

  /** The processor's walk. The bit that makes an entry map a large page is reserved in a PML4. */
  ghost function ProcessorWalk(memory: map<nat, Table>, table: nat, level: nat, b: LinearAddress): Walk
    requires 1 <= level <= 4 && b.Valid()
    decreases level
  {
    var e := EntryAt(memory, table, b.Part(level));
    if !e.present || (level == 4 && e.hugePage) then Fault
    else if level == 1 then Page(e.addr, e.writable && e.user)
    else if e.hugePage then LargePage(level, e.addr)
    else
      match ProcessorWalk(memory, e.addr, level - 1, b)
      case Page(frame, open) => Page(frame, open && e.writable && e.user)
      case other => other
  }

  /** No entry the process owns maps a large page. */
  ghost predicate Plain(s: Vm) {
    forall f, i | f in s.level && s.level[f] >= 1 && OwnEntry(s.level[f], i) :: !EntryAt(s.memory, f, i).hugePage
  }

  function AsWalk(m: Mapping): Walk {
    match m
    case Unmapped => Fault
    case Mapped(frame, open) => Page(frame, open)
  }

  /** On plain tables the processor's walk is the one that the mapping theorems are about. */
  lemma {:induction false} WalkIsTranslate(s: Vm, f: nat, level: nat, b: LinearAddress)
    requires Leveled(s) && Down(s) && Plain(s) && CanWalk(s, f, level, b)
    ensures ProcessorWalk(s.memory, f, level, b) == AsWalk(Translate(s.memory, f, level, b))
    decreases level
  {
    hide Leveled, EntryAt;
    var e := EntryAt(s.memory, f, b.Part(level));
    if level > 1 && e.present {
      ChildOf(s, f, level, b.Part(level));
      WalkIsTranslate(s, e.addr, level - 1, b);
    }
  }

  // ---------------------------------------------------------------- every operation keeps the tables plain

  lemma EnterKeepsPlain(s: Vm, pm: nat, level: nat, i: nat)
    requires Plain(s) && i < ENTRIES && pm in s.level && s.level[pm] == level >= 1 && OwnEntry(level, i)
    requires forall f | f in s.level :: f in s.used
    ensures var s' := Entered(s, pm, level, i).vm; Plain(s')
  {
    var c := SetNewPageMapIfNotPresent(s, pm, level, i);
    if c.ok {
      if !EntryAt(s.memory, pm, i).present {
        assert FreeRun(s.used, c.frame, 1);
        forall f, j | f in c.vm.level && c.vm.level[f] >= 1 && OwnEntry(c.vm.level[f], j)
          ensures !EntryAt(c.vm.memory, f, j).hugePage
        {
          LinkEntries(s, pm, level, i, c.frame, f, j);
        }
      }
      forall f, j | f in c.vm.level && c.vm.level[f] >= 1 && OwnEntry(c.vm.level[f], j)
        ensures !EntryAt(Open(c.vm, pm, i).memory, f, j).hugePage
      {
        OpenEntries(c.vm, pm, i, f, j);
      }
    }
  }

  lemma {:induction false} FillKeepsPlain(s: Vm, pm: nat, level: nat, a: LinearAddress, n: nat)
    requires CanSetup(s, pm, level, a) && Plain(s) && n > 0
    ensures Plain(FillEntry(s, pm, level, a, n).vm)
    decreases level, ENTRIES - a.Part(level), 0
  {
    hide Entered, Plain, Grown, EntryAt;
    var i := a.Part(level);
    EnterKeepsPlain(s, pm, level, i);
    var child := Entered(s, pm, level, i);
    if child.ok && level > 1 {
      EnteredCanFillChild(s, pm, level, a);
      SetupKeepsPlain(child.vm, child.frame, level - 1, a, n);
    }
  }

  lemma {:induction false} SetupKeepsPlain(s: Vm, pm: nat, level: nat, a: LinearAddress, n: nat)
    requires CanSetup(s, pm, level, a) && Plain(s)
    ensures Plain(SetupPageMap(s, pm, level, a, n).vm)
    decreases level, ENTRIES - a.Part(level), 1
  {
    hide SetupPageMap, FillEntry, Plain;
    SetupUnfolds(s, pm, level, a, n);
    if n > 0 {
      FillKeepsPlain(s, pm, level, a, n);
      var filled := FillEntry(s, pm, level, a, n);
      if filled.ok && a.Part(level) < 511 {
        FillGrows(s, pm, level, a, n);
        GrownKeepsCanSetup(s, filled.vm, pm, level, a);
        SetupKeepsPlain(filled.vm, pm, level, NextEntry(a, level), filled.remaining);
      }
    }
  }

  lemma DropKeepsPlain(s: Vm, pm: nat, i: nat, c: nat)
    requires Plain(s) && i < ENTRIES
    ensures Plain(Drop(s, pm, i, c))
  {
    forall f, j | f in s.level && s.level[f] >= 1 && OwnEntry(s.level[f], j)
      ensures !EntryAt(Drop(s, pm, i, c).memory, f, j).hugePage
    {
      DropEntries(s, pm, i, c, f, j);
    }
  }

  lemma {:induction false} CleanKeepsPlain(s: Vm, pm: nat, level: nat, i: nat)
    requires Plain(s) && level >= 1
    ensures Plain(CleanPageMap(s, pm, level, i))
    decreases level, if i < ENTRIES then ENTRIES - i else 0
  {
    hide Plain, Drop;
    if i < ENTRIES && EntryAt(s.memory, pm, i).present {
      var c := EntryAt(s.memory, pm, i).addr;
      if level > 1 {
        CleanKeepsPlain(s, c, level - 1, 0);
      }
      var below := if level > 1 then CleanPageMap(s, c, level - 1, 0) else s;
      DropKeepsPlain(below, pm, i, c);
      CleanKeepsPlain(Drop(below, pm, i, c), pm, level, i + 1);
    } else if i < ENTRIES {
      CleanKeepsPlain(s, pm, level, i + 1);
    }
  }

  lemma DetachKeepsPlain(s: Vm, root: nat, slot: nat)
    requires Plain(s) && slot < ENTRIES
    ensures Plain(Detach(s, root, slot))
  {
    forall f, j | f in s.level && s.level[f] >= 1 && OwnEntry(s.level[f], j)
      ensures !EntryAt(Detach(s, root, slot).memory, f, j).hugePage
    {
      DetachEntries(s, root, slot, f, j);
    }
  }

  lemma CleanSlotKeepsPlain(s: Vm, root: nat, slot: nat)
    requires Plain(s) && slot < ENTRIES
    ensures Plain(CleanSlot(s, root, slot))
  {
    DetachKeepsPlain(s, root, slot);
    CleanKeepsPlain(Detach(s, root, slot), EntryAt(s.memory, root, slot).addr, 3, 0);
    hide Detach, CleanPageMap;
  }

  lemma SetupPml4KeepsPlain(s: Vm, task: nat)
    requires Plain(s) && Inv(s) && task in s.cr3
    ensures Plain(SetupPml4(s, task).0)
  {
    var r, s' := OneFrame(s.used, s.begin, s.end), SetupPml4(s, task).0;
    if r.Block? {
      assert FreeRun(s.used, r.start, 1);
      forall f, j | f in s'.level && s'.level[f] >= 1 && OwnEntry(s'.level[f], j)
        ensures !EntryAt(s'.memory, f, j).hugePage
      {
        WithPml4Entries(s, task, r.start, f, j);
      }
    }
  }

  lemma StepKeepsPlain(s: Vm, op: Op, s': Vm)
    requires Inv(s) && Plain(s) && Step(s, op, s')
    ensures Plain(s')
  {
    hide Leveled;
    match op
    case DoSetupPml4(task) => SetupPml4KeepsPlain(s, task);
    case DoSetupPageMaps(task, a, n) => SetupKeepsPlain(s, s.cr3[task], 4, a, n);
    case DoCleanPageMaps(task, slot) => CleanSlotKeepsPlain(s, s.cr3[task], slot);
    case _ =>
  }

  /** In every run from tables without large pages, as those of a booted system are, there is none. */
  lemma {:induction false} RunKeepsPlain(run: seq<Vm>, ops: seq<Op>)
    requires Isolation.Run(run, ops) && Inv(run[0]) && Plain(run[0])
    ensures Inv(run[|run| - 1]) && Plain(run[|run| - 1])
    decreases |ops|
  {
    RunKeepsInv(run, ops);
    if ops != [] {
      hide Inv, Plain, Step;
      var last := |run| - 1;
      RunKeepsPlain(run[..last], ops[..|ops| - 1]);
      StepKeepsPlain(run[last - 1], ops[|ops| - 1], run[last]);
    }
  }

  /** So in every such run, the processor's walks in the upper half are those the mapping theorems are about. */
  lemma WalksInRuns(run: seq<Vm>, ops: seq<Op>, t: nat, b: ValidAddress)
    requires Isolation.Run(run, ops) && Inv(run[0]) && Plain(run[0]) && t in run[|run| - 1].cr3 && b.pml4 >= 256
    ensures var s := run[|run| - 1];
            ProcessorWalk(s.memory, s.cr3[t], 4, b) == AsWalk(Translate(s.memory, s.cr3[t], 4, b))
  {
    RunKeepsPlain(run, ops);
    var s := run[|run| - 1];
    WalkIsTranslate(s, s.cr3[t], 4, b);
  }

  /** The boot PML4 has zeros in its upper half. */
  lemma BootedIsPlain(memory: map<nat, Table>, used: set<nat>, begin: nat, end: nat, boot: nat)
    requires forall i | 256 <= i < ENTRIES :: EntryAt(memory, boot, i) == NO_ENTRY
    ensures Plain(BootVm(memory, used, begin, end, boot))
  {
  }
}
