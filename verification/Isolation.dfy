/** Every run of the address-space operations keeps the tasks' page tables apart. */
module Isolation {
  import opened MemoryManager
  import opened Paging
  import opened PageTables
  import opened PageMapping
  import opened AddressSpaces
  import Execution
  import Tasks

  /** One step of the kernel as far as page tables and frame marks are concerned. */
  datatype Op =
    | DoSetupPml4(task: nat)
    | DoSetupPageMaps(task: nat, a: ValidAddress, n: nat)
    | DoCleanPageMaps(task: nat, slot: nat)
    | DoFreePml4(task: nat)
    | DoInitContext(task: nat, creator: nat)
    | DoAllocate(frames: set<nat>)
    | DoFree(frames: set<nat>)
    | DoWrite(memory: map<nat, Table>)

  ghost predicate Step(s: Vm, op: Op, s': Vm) {
    match op
    case DoSetupPml4(task) => task in s.cr3 && s' == SetupPml4(s, task).0
    case DoSetupPageMaps(task, a, n) =>
      task in s.cr3 && a.pml4 >= 256 && s' == SetupPageMap(s, s.cr3[task], 4, a, n).vm
    case DoCleanPageMaps(task, slot) =>
      task in s.cr3 && CanCleanSlot(s, s.cr3[task], slot) && s' == CleanSlot(s, s.cr3[task], slot)
    case DoFreePml4(task) => OwnsPml4(s, task) && s' == FreePml4(s, task)
    case DoInitContext(task, creator) =>
      // a new task starts with the CR3 of its creator
      task !in s.cr3 && creator in s.cr3 && s' == s.(cr3 := s.cr3[task := s.cr3[creator]])
    case DoAllocate(frames) =>
      // frames handed to the rest of the kernel
      frames !! s.used && (forall f | f in frames :: f < FRAME_COUNT) && s' == s.(used := s.used + frames)
    case DoFree(frames) => frames !! s.level.Keys && s' == s.(used := s.used - frames)
    case DoWrite(memory) =>
      // programs and kernel write pages, never page tables
      (forall f | f in s.level && s.level[f] >= 1 :: TableAt(memory, f) == TableAt(s.memory, f)) &&
      s' == s.(memory := memory)
  }

  ghost predicate Run(run: seq<Vm>, ops: seq<Op>) {
    |run| == |ops| + 1 &&
    (ops == [] || (Run(run[..|run| - 1], ops[..|ops| - 1]) && Step(run[|run| - 2], ops[|ops| - 1], run[|run| - 1])))
  }

  lemma KernelHalfIsConstant(s: Vm, op: Op, s': Vm)
    requires Inv(s) && Step(s, op, s')
    ensures s'.kernel == s.kernel
  {
    match op
    case DoSetupPageMaps(task, a, n) => SetupGrows(s, s.cr3[task], 4, a, n);
    case DoCleanPageMaps(task, slot) => Execution.CleanSlotFrees(s, s.cr3[task], slot);
    case _ =>
  }

  lemma WriteKeepsInv(s: Vm, m: map<nat, Table>)
    requires Inv(s)
    requires forall f | f in s.level && s.level[f] >= 1 :: TableAt(m, f) == TableAt(s.memory, f)
    ensures Inv(s.(memory := m))
  {
    var s' := s.(memory := m);
    forall f: nat, j: nat | Present(s', f, j)
      ensures Parented(s', EntryAt(s'.memory, f, j).addr, f, j)
    {
      assert Present(s, f, j);
    }
    forall c | c in s'.parent
      ensures PointsTo(s', s'.parent[c], c)
    {
      assert PointsTo(s, s.parent[c], c);
    }
    forall r, j | r in s'.level && s'.level[r] == 4 && 0 <= j < 256
      ensures EntryAt(s'.memory, r, j) == s'.kernel[j]
    {
    }
  }

  lemma MarksKeepInv(s: Vm, used: set<nat>)
    requires Inv(s) && (forall f | f in s.level :: f in used) && forall f | f in used :: f < FRAME_COUNT
    ensures Inv(s.(used := used))
  {
    var s' := s.(used := used);
    forall f: nat, j: nat | Present(s', f, j)
      ensures Parented(s', EntryAt(s'.memory, f, j).addr, f, j)
    {
      assert Present(s, f, j);
    }
    forall c | c in s'.parent
      ensures PointsTo(s', s'.parent[c], c)
    {
      assert PointsTo(s, s.parent[c], c);
    }
  }

  lemma NewTaskKeepsInv(s: Vm, task: nat, creator: nat)
    requires Inv(s) && creator in s.cr3
    ensures Inv(s.(cr3 := s.cr3[task := s.cr3[creator]]))
  {
    var s' := s.(cr3 := s.cr3[task := s.cr3[creator]]);
    forall f: nat, j: nat | Present(s', f, j)
      ensures Parented(s', EntryAt(s'.memory, f, j).addr, f, j)
    {
      assert Present(s, f, j);
    }
    forall c | c in s'.parent
      ensures PointsTo(s', s'.parent[c], c)
    {
      assert PointsTo(s, s.parent[c], c);
    }
  }

  lemma StepKeepsInv(s: Vm, op: Op, s': Vm)
    requires Inv(s) && Step(s, op, s')
    ensures Inv(s')
  {
    hide SetupPageMap, CleanSlot, FreePml4, SetupPml4, Leveled, Down, Up, KernelHalf;
    match op
    case DoSetupPml4(task) => SetupPml4KeepsInv(s, task);
    case DoSetupPageMaps(task, a, n) => SetupGrows(s, s.cr3[task], 4, a, n);
    case DoCleanPageMaps(task, slot) => CleanSlotKeepsInv(s, s.cr3[task], slot);
    case DoFreePml4(task) => FreePml4KeepsInv(s, task);
    case DoInitContext(task, creator) => NewTaskKeepsInv(s, task, creator);
    case DoAllocate(frames) => ForestIsMarked(s); MarksKeepInv(s, s.used + frames);
    case DoFree(frames) => ForestIsMarked(s); MarksKeepInv(s, s.used - frames);
    case DoWrite(memory) => WriteKeepsInv(s, memory);
  }

  lemma ForestIsMarked(s: Vm)
    requires Inv(s)
    ensures forall f | f in s.level :: f in s.used
  {
  }

  /** The forest invariant and the shared kernel half hold in every state of every run. */
  lemma {:induction false} RunKeepsInv(run: seq<Vm>, ops: seq<Op>)
    requires Run(run, ops) && Inv(run[0])
    ensures Inv(run[|run| - 1]) && run[|run| - 1].kernel == run[0].kernel
    decreases |ops|
  {
    if ops != [] {
      var last := |run| - 1;
      RunKeepsInv(run[..last], ops[..|ops| - 1]);
      StepKeepsInv(run[last - 1], ops[|ops| - 1], run[last]);
      KernelHalfIsConstant(run[last - 1], ops[|ops| - 1], run[last]);
    }
  }

  /** All of this holds in every run of a booted system. */
  lemma BootedRunKeepsInv(run: seq<Vm>, ops: seq<Op>, memory: map<nat, Table>, used: set<nat>, begin: nat, end: nat,
                          boot: nat)
    requires CanBoot(memory, used, boot) && Run(run, ops) && run[0] == BootVm(memory, used, begin, end, boot)
    ensures Inv(run[0]) && Inv(run[|run| - 1]) && run[|run| - 1].kernel == TableAt(memory, boot)[..256]
  {
    BootedInv(memory, used, begin, end, boot);
    RunKeepsInv(run, ops);
  }

  /** With a frame left, the main task of a booted system can get an address space of its own. */
  lemma BootedTaskGetsSpace(memory: map<nat, Table>, used: set<nat>, begin: nat, end: nat, boot: nat)
    requires CanBoot(memory, used, boot) && OneFrame(used, begin, end).Block?
    ensures var s := BootVm(memory, used, begin, end, boot);
            var s' := SetupPml4(s, Tasks.MAIN_TASK).0;
            Run([s, s'], [DoSetupPml4(Tasks.MAIN_TASK)]) && OwnsPml4(s', Tasks.MAIN_TASK) && Inv(s')
  {
    var s := BootVm(memory, used, begin, end, boot);
    var s' := SetupPml4(s, Tasks.MAIN_TASK).0;
    assert FreeRun(used, OneFrame(used, begin, end).start, 1);
    assert [s, s'][..1] == [s] && [DoSetupPml4(Tasks.MAIN_TASK)][..0] == [];
    assert Run([s], []);
    BootedInv(memory, used, begin, end, boot);
    SetupPml4KeepsInv(s, Tasks.MAIN_TASK);
    hide Inv;
  }

  /** What a task may see: a page it maps is marked, and no other task with page tables of its own maps that frame. */
  lemma AddressSpacesAreSeparate(run: seq<Vm>, ops: seq<Op>, t: nat, u: nat, b: ValidAddress, b': ValidAddress)
    requires Run(run, ops) && Inv(run[0])
    requires var s := run[|run| - 1];
             && t in s.cr3 && u in s.cr3 && b.pml4 >= 256 && b'.pml4 >= 256
             && Translate(s.memory, s.cr3[t], 4, b).Mapped? && Translate(s.memory, s.cr3[u], 4, b').Mapped?
             && Translate(s.memory, s.cr3[t], 4, b).frame == Translate(s.memory, s.cr3[u], 4, b').frame
    ensures var s := run[|run| - 1];
            && s.cr3[t] == s.cr3[u] && SamePage(b, b', 4)
            && Translate(s.memory, s.cr3[t], 4, b).frame in s.used
  {
    RunKeepsInv(run, ops);
    var s := run[|run| - 1];
    WalksAreInjective(s, s.cr3[t], s.cr3[u], 4, b, b');
    TranslateEndsInPage(s, s.cr3[t], 4, b);
  }

  /** The lower half of every address space is the kernel's, whatever the run did. */
  lemma LowerHalfIsShared(run: seq<Vm>, ops: seq<Op>, t: nat, i: nat)
    requires Run(run, ops) && Inv(run[0]) && t in run[|run| - 1].cr3 && i < 256
    ensures EntryAt(run[|run| - 1].memory, run[|run| - 1].cr3[t], i) == EntryAt(run[0].memory, run[0].boot, i)
  {
    RunKeepsInv(run, ops);
  }

  /** The frame reached after some steps of a walk: the table itself, a table below it, or the page. */
  ghost function WalkTo(memory: map<nat, Table>, table: nat, level: nat, b: LinearAddress, steps: nat): Mapping
    requires steps <= level <= 4 && b.Valid()
    decreases steps
  {
    if steps == 0 then Mapped(table, true)
    else
      var e := EntryAt(memory, table, b.Part(level));
      if e.present then WalkTo(memory, e.addr, level - 1, b, steps - 1) else Unmapped
  }

  lemma {:induction false} WalkKeepsLevel(s: Vm, table: nat, level: nat, b: LinearAddress, steps: nat)
    requires Leveled(s) && Down(s) && table in s.level && s.level[table] == level && steps <= level <= 4
    requires b.Valid() && b.pml4 >= 256 && WalkTo(s.memory, table, level, b, steps).Mapped?
    ensures var f := WalkTo(s.memory, table, level, b, steps).frame;
            f in s.level && s.level[f] == level - steps
    decreases steps
  {
    if steps > 0 {
      ChildOf(s, table, level, b.Part(level));
      WalkKeepsLevel(s, EntryAt(s.memory, table, b.Part(level)).addr, level - 1, b, steps - 1);
    }
  }

  /** No frame serves twice, as table or as page: two walks that meet started at one table and took one way. */
  lemma {:induction false} FrameServesOnce(s: Vm, f: nat, f': nat, level: nat, b: LinearAddress, b': LinearAddress,
                                           steps: nat, steps': nat)
    requires Leveled(s) && Down(s) && steps <= level <= 4 && steps' <= level
    requires f in s.level && s.level[f] == level && f' in s.level && s.level[f'] == level
    requires b.Valid() && b.pml4 >= 256 && b'.Valid() && b'.pml4 >= 256
    requires WalkTo(s.memory, f, level, b, steps).Mapped? && WalkTo(s.memory, f', level, b', steps').Mapped?
    requires WalkTo(s.memory, f, level, b, steps).frame == WalkTo(s.memory, f', level, b', steps').frame
    ensures f == f' && steps == steps'
    ensures forall l | level - steps < l <= level :: b.Part(l) == b'.Part(l)
    decreases steps
  {
    hide EntryAt, Down, Leveled;
    WalkKeepsLevel(s, f, level, b, steps);
    WalkKeepsLevel(s, f', level, b', steps');
    if steps > 0 {
      ChildOf(s, f, level, b.Part(level));
      ChildOf(s, f', level, b'.Part(level));
      FrameServesOnce(s, EntryAt(s.memory, f, b.Part(level)).addr, EntryAt(s.memory, f', b'.Part(level)).addr,
                      level - 1, b, b', steps - 1, steps' - 1);
    }
  }
}
