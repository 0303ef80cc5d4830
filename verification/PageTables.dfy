/** The per-process page tables of kernel/terminal.cpp: growing, tearing down and switching address spaces. */
module PageTables {
  import opened MemoryManager
  import opened Paging

  type Table = t: seq<PageMapEntry> | |t| == ENTRIES witness seq(ENTRIES, _ => NO_ENTRY)

  /** A frame filled with zeros. */
  function EmptyTable(): (t: Table)
    ensures forall i | 0 <= i < ENTRIES :: t[i] == NO_ENTRY
  {
    seq(ENTRIES, _ => NO_ENTRY)
  }

  function EntryAt(memory: map<nat, Table>, frame: nat, i: nat): PageMapEntry
    requires i < ENTRIES
  {
    TableAt(memory, frame)[i]
  }

  /** Where a table or page hangs: entry `index` of `table`. */
  datatype Slot = Slot(table: nat, index: nat)

  /**
   * Physical memory seen as 512 entries per frame, the allocator's marks, and the frames that belong to page maps:
   * `level` says what a frame is used as (4 is a PML4, 0 a mapped page), `parent` which entry points to it.
   * `freed` lists the frames handed back to the allocator, oldest first.
   */
  datatype Vm = Vm(memory: map<nat, Table>, used: set<nat>, begin: nat, end: nat, freed: seq<nat>,
                   level: map<nat, nat>, parent: map<nat, Slot>, cr3: map<nat, nat>, boot: nat,
                   kernel: seq<PageMapEntry>)

  function TableAt(memory: map<nat, Table>, frame: nat): Table {
    if frame in memory then memory[frame] else EmptyTable()
  }

  /** The lower half of a PML4 is shared with the kernel and is not walked by the process. */
  predicate OwnEntry(level: nat, index: nat) {
    index < ENTRIES && (level == 4 ==> index >= 256)
  }

  // ---------------------------------------------------------------- the page-map forest

  ghost predicate Leveled(s: Vm) {
    && (forall f | f in s.level :: s.level[f] <= 4 && f in s.used)
    && (forall c | c in s.parent ::
          && c in s.level && s.parent[c].table in s.level
          && s.level[s.parent[c].table] == s.level[c] + 1
          && OwnEntry(s.level[c] + 1, s.parent[c].index))
  }

  /** An entry the process owns, in a table of the forest, that is present. */
  ghost predicate Present(s: Vm, f: nat, i: nat) {
    f in s.level && s.level[f] >= 1 && OwnEntry(s.level[f], i) && EntryAt(s.memory, f, i).present
  }

  /** Every present entry of a page map is the one entry recorded for its child. */
  ghost predicate Down(s: Vm) {
    forall f: nat, i: nat | Present(s, f, i) :: Parented(s, EntryAt(s.memory, f, i).addr, f, i)
  }

  ghost predicate Parented(s: Vm, c: nat, f: nat, i: nat) {
    c in s.parent && s.parent[c] == Slot(f, i)
  }

  /** And every child is pointed to by the entry recorded for it. */
  ghost predicate Up(s: Vm) {
    forall c | c in s.parent :: PointsTo(s, s.parent[c], c)
  }

  ghost predicate PointsTo(s: Vm, slot: Slot, c: nat) {
    slot.index < ENTRIES && EntryAt(s.memory, slot.table, slot.index).present &&
    EntryAt(s.memory, slot.table, slot.index).addr == c
  }

  ghost predicate KernelHalf(s: Vm) {
    && |s.kernel| == 256
    && (forall r, i | r in s.level && s.level[r] == 4 && 0 <= i < 256 :: EntryAt(s.memory, r, i) == s.kernel[i])
  }

  ghost predicate Roots(s: Vm) {
    && s.boot in s.level && s.level[s.boot] == 4
    && (forall task | task in s.cr3 :: s.cr3[task] in s.level && s.level[s.cr3[task]] == 4)
  }

  ghost predicate Inv(s: Vm) {
    && Leveled(s) && Down(s) && Up(s) && KernelHalf(s) && Roots(s)
    && (forall f | f in s.used :: f < FRAME_COUNT)
  }

  /** A present own entry leads to a child of the next lower level. */
  lemma ChildOf(s: Vm, f: nat, level: nat, i: nat)
    requires Leveled(s) && Down(s) && f in s.level && 1 <= s.level[f] == level && OwnEntry(level, i)
    requires EntryAt(s.memory, f, i).present
    ensures var c := EntryAt(s.memory, f, i).addr;
            Parented(s, c, f, i) && c in s.level && s.level[c] == level - 1
  {
    assert Present(s, f, i);
  }

  /** The frame n links above f, or the root of its tree if that comes first. */
  ghost function Ancestor(s: Vm, f: nat, n: nat): nat {
    if n == 0 then f
    else
      var a := Ancestor(s, f, n - 1);
      if a in s.parent then s.parent[a].table else a
  }

  /** f belongs to the subtree of top, which is a frame of level l. */
  ghost predicate Under(s: Vm, f: nat, top: nat, l: nat) {
    f in s.level && s.level[f] <= l && Ancestor(s, f, l - s.level[f]) == top
  }

  // ---------------------------------------------------------------- growing a page map

  /** A zeroed frame linked into an entry that was not present. */
  ghost function Link(s: Vm, pm: nat, level: nat, i: nat, child: nat): Vm
    requires i < ENTRIES
  {
    var zeroed := s.memory[child := EmptyTable()];
    var e := TableAt(zeroed, pm)[i].SetPointer(child * PAGE_BYTES);
    s.(memory := zeroed[pm := TableAt(zeroed, pm)[i := e.(present := true)]],
       used := s.used + {child},
       level := s.level[child := if level > 0 then level - 1 else 0],
       parent := s.parent[child := Slot(pm, i)])
  }

  datatype Child = Child(vm: Vm, frame: nat, ok: bool)

  ghost function SetNewPageMapIfNotPresent(s: Vm, pm: nat, level: nat, i: nat): Child
    requires i < ENTRIES
  {
    var e := TableAt(s.memory, pm)[i];
    if e.present then Child(s, e.addr, true)
    else
      match OneFrame(s.used, s.begin, s.end)
      case Block(child) => Child(Link(s, pm, level, i, child), child, true)
      case _ => Child(s, 0, false)
  }

  /** The writable and user bits set on an entry. */
  ghost function Open(s: Vm, pm: nat, i: nat): Vm
    requires i < ENTRIES
  {
    var t := TableAt(s.memory, pm);
    s.(memory := s.memory[pm := t[i := t[i].(writable := true, user := true)]])
  }

  /** State in which a loop iteration of SetupPageMap descends: the entry is present, writable and user. */
  ghost function Entered(s: Vm, pm: nat, level: nat, i: nat): Child
    requires i < ENTRIES
  {
    var child := SetNewPageMapIfNotPresent(s, pm, level, i);
    if child.ok then Child(Open(child.vm, pm, i), child.frame, true) else child
  }

  datatype Setup = Setup(vm: Vm, remaining: nat, ok: bool)

  /** One loop iteration: the entry for the address is entered and the subtree below it filled. */
  ghost function FillEntry(s: Vm, pm: nat, level: nat, a: LinearAddress, n: nat): Setup
    requires 1 <= level <= 4 && a.Valid() && n > 0
    decreases level, ENTRIES - a.Part(level), 0
  {
    var child := Entered(s, pm, level, a.Part(level));
    if !child.ok then Setup(child.vm, n, false)
    else if level == 1 then Setup(child.vm, n - 1, true)
    else
      var below := SetupPageMap(child.vm, child.frame, level - 1, a, n);
      if below.ok then below else Setup(below.vm, n, false)
  }

  /** The address of the next entry of the table: the carry out of the lower levels. */
  function NextEntry(a: LinearAddress, level: nat): LinearAddress
    requires level >= 1
  {
    ZeroParts(a.SetPart(level, a.Part(level) + 1), level - 1)
  }

  /** SetupPageMap: fills entry after entry until the pages run out or the table ends. */
  ghost function SetupPageMap(s: Vm, pm: nat, level: nat, a: LinearAddress, n: nat): Setup
    requires 1 <= level <= 4 && a.Valid()
    decreases level, ENTRIES - a.Part(level), 1
  {
    if n == 0 then Setup(s, 0, true)
    else
      var filled := FillEntry(s, pm, level, a, n);
      if !filled.ok || a.Part(level) == 511 then filled
      else
        NextPageNumber(a, level);
        SetupPageMap(filled.vm, pm, level, NextEntry(a, level), filled.remaining)
  }

  /** One iteration of the filling loop. */
  lemma SetupUnfolds(s: Vm, pm: nat, level: nat, a: LinearAddress, n: nat)
    requires 1 <= level <= 4 && a.Valid()
    ensures n == 0 ==> SetupPageMap(s, pm, level, a, n) == Setup(s, 0, true)
    ensures n > 0 ==>
              var filled := FillEntry(s, pm, level, a, n);
              if !filled.ok || a.Part(level) == 511 then
                SetupPageMap(s, pm, level, a, n) == filled
              else
                NextEntry(a, level).Valid() &&
                SetupPageMap(s, pm, level, a, n) ==
                SetupPageMap(filled.vm, pm, level, NextEntry(a, level), filled.remaining)
  {
    if a.Part(level) < 511 {
      NextPageNumber(a, level);
    }
  }

  ghost predicate CanLink(s: Vm, pm: nat, level: nat, i: nat, child: nat) {
    && pm in s.level && s.level[pm] == level >= 1 && OwnEntry(level, i)
    && !EntryAt(s.memory, pm, i).present && child !in s.used && child < FRAME_COUNT
  }

  lemma LinkEntries(s: Vm, pm: nat, level: nat, i: nat, child: nat, f: nat, j: nat)
    requires i < ENTRIES && j < ENTRIES && child != pm && child < FRAME_COUNT
    ensures EntryAt(Link(s, pm, level, i, child).memory, f, j) ==
              if f == child then NO_ENTRY
              else if f == pm && j == i then EntryAt(s.memory, pm, i).(addr := child, present := true)
              else EntryAt(s.memory, f, j)
  {
    PointerOfFrame(EntryAt(s.memory, pm, i), child);
  }

  lemma LinkKeepsDown(s: Vm, pm: nat, level: nat, i: nat, child: nat)
    requires Leveled(s) && Down(s) && CanLink(s, pm, level, i, child)
    ensures Down(Link(s, pm, level, i, child))
  {
    var s' := Link(s, pm, level, i, child);
    forall f: nat, j: nat | Present(s', f, j)
      ensures Parented(s', EntryAt(s'.memory, f, j).addr, f, j)
    {
      LinkEntries(s, pm, level, i, child, f, j);
      if f != pm || j != i {
        assert Present(s, f, j);
      }
    }
  }

  lemma LinkKeepsUp(s: Vm, pm: nat, level: nat, i: nat, child: nat)
    requires Leveled(s) && Up(s) && CanLink(s, pm, level, i, child)
    ensures Up(Link(s, pm, level, i, child))
  {
    var s' := Link(s, pm, level, i, child);
    forall c | c in s'.parent
      ensures PointsTo(s', s'.parent[c], c)
    {
      if c == child {
        LinkEntries(s, pm, level, i, child, pm, i);
      } else {
        assert PointsTo(s, s.parent[c], c);
        LinkEntries(s, pm, level, i, child, s.parent[c].table, s.parent[c].index);
      }
    }
  }

  lemma LinkKeepsKernelHalf(s: Vm, pm: nat, level: nat, i: nat, child: nat)
    requires Leveled(s) && KernelHalf(s) && CanLink(s, pm, level, i, child)
    ensures KernelHalf(Link(s, pm, level, i, child))
  {
    var s' := Link(s, pm, level, i, child);
    forall r, j | r in s'.level && s'.level[r] == 4 && 0 <= j < 256
      ensures EntryAt(s'.memory, r, j) == s'.kernel[j]
    {
      LinkEntries(s, pm, level, i, child, r, j);
      assert r in s.level;
    }
  }

  lemma LinkKeepsLeveled(s: Vm, pm: nat, level: nat, i: nat, child: nat)
    requires Leveled(s) && Roots(s) && CanLink(s, pm, level, i, child)
    ensures Leveled(Link(s, pm, level, i, child)) && Roots(Link(s, pm, level, i, child))
  {
    hide EmptyTable;
  }

  lemma LinkKeepsInv(s: Vm, pm: nat, level: nat, i: nat, child: nat)
    requires Inv(s) && CanLink(s, pm, level, i, child)
    ensures Inv(Link(s, pm, level, i, child))
  {
    LinkKeepsLeveled(s, pm, level, i, child);
    LinkKeepsDown(s, pm, level, i, child);
    LinkKeepsUp(s, pm, level, i, child);
    LinkKeepsKernelHalf(s, pm, level, i, child);
  }

  lemma OpenEntries(s: Vm, pm: nat, i: nat, f: nat, j: nat)
    requires i < ENTRIES && j < ENTRIES
    ensures EntryAt(Open(s, pm, i).memory, f, j) ==
              if f == pm && j == i then EntryAt(s.memory, f, j).(writable := true, user := true)
              else EntryAt(s.memory, f, j)
  {
  }

  lemma OpenKeepsInv(s: Vm, pm: nat, i: nat)
    requires Inv(s) && pm in s.level && s.level[pm] >= 1 && OwnEntry(s.level[pm], i)
    ensures Inv(Open(s, pm, i))
  {
    var s' := Open(s, pm, i);
    forall f: nat, j: nat | Present(s', f, j)
      ensures Parented(s', EntryAt(s'.memory, f, j).addr, f, j)
    {
      OpenEntries(s, pm, i, f, j);
      assert Present(s, f, j);
    }
    forall c | c in s'.parent
      ensures PointsTo(s', s'.parent[c], c)
    {
      assert PointsTo(s, s.parent[c], c);
      OpenEntries(s, pm, i, s.parent[c].table, s.parent[c].index);
    }
    forall r, j | r in s'.level && s'.level[r] == 4 && 0 <= j < 256
      ensures EntryAt(s'.memory, r, j) == s'.kernel[j]
    {
      OpenEntries(s, pm, i, r, j);
    }
  }

  // ---------------------------------------------------------------- what growing leaves alone

  ghost predicate SameContext(s: Vm, s': Vm) {
    s'.begin == s.begin && s'.end == s.end && s'.freed == s.freed && s'.cr3 == s.cr3 && s'.boot == s.boot &&
    s'.kernel == s.kernel
  }

  ghost predicate ForestGrows(s: Vm, s': Vm) {
    && (forall f | f in s.level :: f in s'.level && s'.level[f] == s.level[f])
    && (forall f | f in s.level :: f in s'.parent <==> f in s.parent)
    && (forall f | f in s.level && f in s.parent && f in s'.parent :: s'.parent[f] == s.parent[f])
  }

  /** New frames were free, hang below pm, and are the only new marks. */
  ghost predicate NewFrames(s: Vm, s': Vm, pm: nat, level: nat) {
    && (forall f | f in s'.level && f !in s.level :: f !in s.used && s'.level[f] < level && Under(s', f, pm, level))
    && s'.used == s.used + (s'.level.Keys - s.level.Keys)
  }

  /** Memory outside the forest and in the rest of the forest is as before. */
  ghost predicate OutsideKept(s: Vm, s': Vm, pm: nat, level: nat) {
    && (forall f | f !in s'.level :: TableAt(s'.memory, f) == TableAt(s.memory, f))
    && (forall f | f in s.level && !Under(s, f, pm, level) :: TableAt(s'.memory, f) == TableAt(s.memory, f))
  }

  /** Mapped pages keep their contents; new ones are zeroed. */
  ghost predicate PagesKept(s: Vm, s': Vm) {
    forall f | f in s'.level && s'.level[f] == 0 ::
      TableAt(s'.memory, f) == if f in s.level then TableAt(s.memory, f) else EmptyTable()
  }

  /** Present entries stay present and keep their frame and their permissions. */
  ghost predicate EntriesKept(s: Vm, s': Vm) {
    forall f: nat, i: nat | Present(s, f, i) :: Kept(EntryAt(s.memory, f, i), EntryAt(s'.memory, f, i))
  }

  ghost predicate Kept(e: PageMapEntry, e': PageMapEntry) {
    e'.present && e'.addr == e.addr && (e.writable ==> e'.writable) && (e.user ==> e'.user)
  }

  ghost predicate Grown(s: Vm, s': Vm, pm: nat, level: nat) {
    && SameContext(s, s') && ForestGrows(s, s') && NewFrames(s, s', pm, level)
    && OutsideKept(s, s', pm, level) && PagesKept(s, s') && EntriesKept(s, s')
  }

  lemma {:induction false} AncestorGrows(s: Vm, s': Vm, f: nat, n: nat)
    requires Leveled(s) && ForestGrows(s, s') && f in s.level
    ensures Ancestor(s', f, n) == Ancestor(s, f, n) && Ancestor(s, f, n) in s.level
  {
    if n > 0 {
      AncestorGrows(s, s', f, n - 1);
    }
  }

  lemma UnderGrows(s: Vm, s': Vm, f: nat, pm: nat, level: nat)
    requires Leveled(s) && ForestGrows(s, s') && f in s.level
    ensures Under(s', f, pm, level) <==> Under(s, f, pm, level)
  {
    if s.level[f] <= level {
      AncestorGrows(s, s', f, level - s.level[f]);
    }
  }

  lemma NewFramesTransitive(s0: Vm, s1: Vm, s2: Vm, pm: nat, level: nat)
    requires Leveled(s1) && ForestGrows(s0, s1) && ForestGrows(s1, s2)
    requires NewFrames(s0, s1, pm, level) && NewFrames(s1, s2, pm, level)
    ensures NewFrames(s0, s2, pm, level)
  {
    forall f | f in s2.level && f !in s0.level
      ensures f !in s0.used && s2.level[f] < level && Under(s2, f, pm, level)
    {
      if f in s1.level {
        UnderGrows(s1, s2, f, pm, level);
      }
    }
  }

  lemma OutsideTransitive(s0: Vm, s1: Vm, s2: Vm, pm: nat, level: nat)
    requires Leveled(s0) && ForestGrows(s0, s1) && ForestGrows(s1, s2)
    requires OutsideKept(s0, s1, pm, level) && OutsideKept(s1, s2, pm, level)
    ensures OutsideKept(s0, s2, pm, level)
  {
    forall f | f in s0.level && !Under(s0, f, pm, level)
      ensures TableAt(s2.memory, f) == TableAt(s0.memory, f)
    {
      UnderGrows(s0, s1, f, pm, level);
    }
  }

  lemma EntriesTransitive(s0: Vm, s1: Vm, s2: Vm)
    requires ForestGrows(s0, s1) && EntriesKept(s0, s1) && EntriesKept(s1, s2)
    ensures EntriesKept(s0, s2)
  {
    forall f: nat, i: nat | Present(s0, f, i)
      ensures Kept(EntryAt(s0.memory, f, i), EntryAt(s2.memory, f, i))
    {
      assert Present(s1, f, i);
    }
  }

  lemma GrownTransitive(s0: Vm, s1: Vm, s2: Vm, pm: nat, level: nat)
    requires Leveled(s0) && Leveled(s1) && Grown(s0, s1, pm, level) && Grown(s1, s2, pm, level)
    ensures Grown(s0, s2, pm, level)
  {
    NewFramesTransitive(s0, s1, s2, pm, level);
    OutsideTransitive(s0, s1, s2, pm, level);
    EntriesTransitive(s0, s1, s2);
  }

  /** Growth below a child is growth below its parent. */
  lemma GrownLifts(s: Vm, s': Vm, child: nat, pm: nat, i: nat, level: nat)
    requires Leveled(s) && ForestGrows(s, s') && Parented(s, child, pm, i) && s.level[pm] == level >= 1
    requires Grown(s, s', child, level - 1)
    ensures Grown(s, s', pm, level)
  {
    forall f | f in s'.level && f !in s.level
      ensures s'.level[f] < level && Under(s', f, pm, level)
    {
      assert Under(s', f, child, level - 1);
      assert Parented(s', child, pm, i);
    }
    forall f | f in s.level && !Under(s, f, pm, level)
      ensures TableAt(s'.memory, f) == TableAt(s.memory, f)
    {
      assert !Under(s, f, child, level - 1);
    }
  }

  lemma LinkAddsChild(s: Vm, pm: nat, level: nat, i: nat, child: nat)
    requires Leveled(s) && CanLink(s, pm, level, i, child)
    ensures var s' := Link(s, pm, level, i, child);
            ForestGrows(s, s') && NewFrames(s, s', pm, level) && SameContext(s, s')
  {
    var s' := Link(s, pm, level, i, child);
    assert Ancestor(s', child, 1) == pm by {
      assert Ancestor(s', child, 0) == child;
    }
  }

  lemma LinkKeepsMemory(s: Vm, pm: nat, level: nat, i: nat, child: nat)
    requires Leveled(s) && CanLink(s, pm, level, i, child)
    ensures var s' := Link(s, pm, level, i, child);
            OutsideKept(s, s', pm, level) && PagesKept(s, s') && EntriesKept(s, s')
  {
    hide EmptyTable;
    var s' := Link(s, pm, level, i, child);
    assert Under(s, pm, pm, level);
    forall f: nat, j: nat | Present(s, f, j)
      ensures Kept(EntryAt(s.memory, f, j), EntryAt(s'.memory, f, j))
    {
      LinkEntries(s, pm, level, i, child, f, j);
    }
  }

  lemma LinkGrows(s: Vm, pm: nat, level: nat, i: nat, child: nat)
    requires Leveled(s) && CanLink(s, pm, level, i, child)
    ensures Grown(s, Link(s, pm, level, i, child), pm, level)
  {
    hide Link;
    LinkAddsChild(s, pm, level, i, child);
    LinkKeepsMemory(s, pm, level, i, child);
  }

  lemma OpenGrows(s: Vm, pm: nat, i: nat)
    requires Inv(s) && pm in s.level && s.level[pm] >= 1 && OwnEntry(s.level[pm], i)
    ensures Grown(s, Open(s, pm, i), pm, s.level[pm])
  {
    hide Inv;
    assert Under(s, pm, pm, s.level[pm]);
    forall f: nat, j: nat | Present(s, f, j)
      ensures Kept(EntryAt(s.memory, f, j), EntryAt(Open(s, pm, i).memory, f, j))
    {
      OpenEntries(s, pm, i, f, j);
    }
  }

  ghost predicate OpenEntry(e: PageMapEntry, frame: nat) {
    e.present && e.writable && e.user && e.addr == frame
  }

  lemma EnterEntry(s: Vm, pm: nat, level: nat, i: nat)
    requires Inv(s) && pm in s.level && s.level[pm] == level >= 1 && OwnEntry(level, i)
    ensures var c := Entered(s, pm, level, i);
            && Inv(c.vm) && Grown(s, c.vm, pm, level)
            && (c.ok ==> OpenEntry(EntryAt(c.vm.memory, pm, i), c.frame) && Parented(c.vm, c.frame, pm, i))
            && (!c.ok ==> !OneFrame(s.used, s.begin, s.end).Block? && c.vm == s)
  {
    hide Link, Roots;
    var child := SetNewPageMapIfNotPresent(s, pm, level, i);
    if child.ok {
      if !EntryAt(s.memory, pm, i).present {
        assert FreeRun(s.used, child.frame, 1);
        assert CanLink(s, pm, level, i, child.frame);
        LinkKeepsInv(s, pm, level, i, child.frame);
        LinkGrows(s, pm, level, i, child.frame);
        LinkEntries(s, pm, level, i, child.frame, pm, i);
        GrownTransitive(s, child.vm, Open(child.vm, pm, i), pm, level) by {
          OpenGrows(child.vm, pm, i);
        }
      } else {
        OpenGrows(s, pm, i);
        assert Present(s, pm, i);
      }
      OpenKeepsInv(child.vm, pm, i);
      OpenEntries(child.vm, pm, i, pm, i);
    }
  }

  ghost predicate CanSetup(s: Vm, pm: nat, level: nat, a: LinearAddress) {
    Inv(s) && pm in s.level && 1 <= s.level[pm] == level && a.Valid() && OwnEntry(level, a.Part(level))
  }

  lemma {:induction false} FillGrows(s: Vm, pm: nat, level: nat, a: LinearAddress, n: nat)
    requires CanSetup(s, pm, level, a) && n > 0
    ensures Inv(FillEntry(s, pm, level, a, n).vm) && Grown(s, FillEntry(s, pm, level, a, n).vm, pm, level)
    decreases level, ENTRIES - a.Part(level), 0
  {
    hide Link, Entered, NewFrames, OutsideKept, PagesKept, EntriesKept, SameContext, Up, Roots;
    var i := a.Part(level);
    EnterEntry(s, pm, level, i);
    var child := Entered(s, pm, level, i);
    if child.ok && level > 1 {
      ChildCanSetup(s, child.vm, child.frame, pm, level, a);
      SetupGrows(child.vm, child.frame, level - 1, a, n);
      GrownThroughChild(s, child.vm, SetupPageMap(child.vm, child.frame, level - 1, a, n).vm, child.frame, pm, i,
                        level);
    }
  }

  lemma ChildCanSetup(s: Vm, s': Vm, child: nat, pm: nat, level: nat, a: LinearAddress)
    requires CanSetup(s, pm, level, a) && level > 1
    requires Inv(s') && ForestGrows(s, s') && Parented(s', child, pm, a.Part(level))
    ensures CanSetup(s', child, level - 1, a)
  {
  }

  lemma GrownThroughChild(s: Vm, mid: Vm, s': Vm, child: nat, pm: nat, i: nat, level: nat)
    requires Leveled(s) && Leveled(mid) && pm in s.level && s.level[pm] == level >= 1
    requires Grown(s, mid, pm, level) && Parented(mid, child, pm, i) && Grown(mid, s', child, level - 1)
    ensures Grown(s, s', pm, level)
  {
    GrownLifts(mid, s', child, pm, i, level);
    GrownTransitive(s, mid, s', pm, level);
  }

  lemma GrownKeepsCanSetup(s: Vm, s': Vm, pm: nat, level: nat, a: LinearAddress)
    requires CanSetup(s, pm, level, a) && Inv(s') && ForestGrows(s, s') && a.Part(level) < 511
    ensures CanSetup(s', pm, level, NextEntry(a, level))
    ensures NextEntry(a, level).Part(level) == a.Part(level) + 1
    ensures PageNumber(NextEntry(a, level), level) == (a.Part(level) + 1) * Span(level - 1)
  {
    NextPageNumber(a, level);
  }

  lemma {:induction false} SetupGrows(s: Vm, pm: nat, level: nat, a: LinearAddress, n: nat)
    requires CanSetup(s, pm, level, a)
    ensures Inv(SetupPageMap(s, pm, level, a, n).vm) && Grown(s, SetupPageMap(s, pm, level, a, n).vm, pm, level)
    decreases level, ENTRIES - a.Part(level), 1
  {
    hide FillEntry, PagesKept, Roots, OutsideKept;
    if n > 0 {
      FillGrows(s, pm, level, a, n);
      var filled := FillEntry(s, pm, level, a, n);
      if filled.ok && a.Part(level) < 511 {
        GrownKeepsCanSetup(s, filled.vm, pm, level, a);
        SetupGrows(filled.vm, pm, level, NextEntry(a, level), filled.remaining);
        GrownTransitive(s, filled.vm, SetupPageMap(filled.vm, pm, level, NextEntry(a, level), filled.remaining).vm,
                        pm, level);
      }
    } else {
      GrownReflexive(s, pm, level);
    }
  }

  lemma GrownReflexive(s: Vm, pm: nat, level: nat)
    requires Leveled(s)
    ensures Grown(s, s, pm, level)
  {
  }
}
