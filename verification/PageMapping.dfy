/** What SetupPageMap maps, seen through the processor's page walk (Intel SDM Volume 3A, section 4.5). */
module PageMapping {
  import opened Division
  import opened MemoryManager
  import opened Paging
  import opened PageTables

  /** Result of a page walk; `open` means every entry on the path is writable and user. */
  datatype Mapping = Unmapped | Mapped(frame: nat, open: bool)

  /** The walk of address b from a table of the given level. */
  ghost function Translate(memory: map<nat, Table>, table: nat, level: nat, b: LinearAddress): Mapping
    requires 1 <= level <= 4 && b.Valid()
    decreases level
  {
    var e := EntryAt(memory, table, b.Part(level));
    if !e.present then Unmapped
    else if level == 1 then Mapped(e.addr, e.writable && e.user)
    else
      match Translate(memory, e.addr, level - 1, b)
      case Unmapped => Unmapped
      case Mapped(frame, open) => Mapped(frame, open && e.writable && e.user)
  }

  /** A table of the forest, and an address the process may map through it. */
  ghost predicate CanWalk(s: Vm, f: nat, level: nat, b: LinearAddress) {
    f in s.level && 1 <= s.level[f] == level <= 4 && b.Valid() && OwnEntry(level, b.Part(level))
  }

  /** A walk ends in a mapped page of the forest. */
  lemma {:induction false} TranslateEndsInPage(s: Vm, f: nat, level: nat, b: LinearAddress)
    requires Leveled(s) && Down(s) && CanWalk(s, f, level, b) && Translate(s.memory, f, level, b).Mapped?
    ensures Translate(s.memory, f, level, b).frame in s.parent
    ensures s.level[Translate(s.memory, f, level, b).frame] == 0
    decreases level
  {
    ChildOf(s, f, level, b.Part(level));
    if level > 1 {
      TranslateEndsInPage(s, EntryAt(s.memory, f, b.Part(level)).addr, level - 1, b);
    }
  }

  /** Growth never unmaps a page, moves it or takes permissions away. */
  lemma {:induction false} TranslateKept(s: Vm, s': Vm, f: nat, level: nat, b: LinearAddress)
    requires Leveled(s) && Down(s) && EntriesKept(s, s') && CanWalk(s, f, level, b)
    requires Translate(s.memory, f, level, b).Mapped?
    ensures var old', new' := Translate(s.memory, f, level, b), Translate(s'.memory, f, level, b);
            new'.Mapped? && new'.frame == old'.frame && (old'.open ==> new'.open)
    decreases level
  {
    var i := b.Part(level);
    ChildOf(s, f, level, i);
    assert Kept(EntryAt(s.memory, f, i), EntryAt(s'.memory, f, i)) by {
      assert Present(s, f, i);
    }
    if level > 1 {
      TranslateKept(s, s', EntryAt(s.memory, f, i).addr, level - 1, b);
    }
  }

  /** A walk only reads tables below its start. */
  lemma {:induction false} TranslateReadsSubtree(s: Vm, m': map<nat, Table>, f: nat, level: nat, b: LinearAddress)
    requires Leveled(s) && Down(s) && CanWalk(s, f, level, b)
    requires forall g | g in s.level && Under(s, g, f, level) :: TableAt(m', g) == TableAt(s.memory, g)
    ensures Translate(m', f, level, b) == Translate(s.memory, f, level, b)
    decreases level
  {
    hide Leveled;
    var i := b.Part(level);
    assert Under(s, f, f, level);
    if level > 1 && EntryAt(s.memory, f, i).present {
      ChildOf(s, f, level, i);
      var c := EntryAt(s.memory, f, i).addr;
      forall g | g in s.level && Under(s, g, c, level - 1)
        ensures TableAt(m', g) == TableAt(s.memory, g)
      {
        assert Under(s, g, f, level);
      }
      TranslateReadsSubtree(s, m', c, level - 1, b);
    }
  }

  /** Work below one table leaves the walks from another table of the same level alone. */
  lemma SiblingKept(s: Vm, m': map<nat, Table>, busy: nat, f: nat, level: nat, b: LinearAddress)
    requires Leveled(s) && Down(s) && CanWalk(s, f, level, b) && f != busy
    requires forall g | g in s.level && !Under(s, g, busy, level) :: TableAt(m', g) == TableAt(s.memory, g)
    ensures Translate(m', f, level, b) == Translate(s.memory, f, level, b)
  {
    forall g | g in s.level && Under(s, g, f, level)
      ensures TableAt(m', g) == TableAt(s.memory, g)
    {
      assert !Under(s, g, busy, level);
    }
    TranslateReadsSubtree(s, m', f, level, b);
  }

  /** Filling the subtree of one child leaves the walks through the other entries alone. */
  lemma OtherEntriesKept(s: Vm, m': map<nat, Table>, child: nat, pm: nat, i: nat, level: nat, b: LinearAddress)
    requires Leveled(s) && Down(s) && CanWalk(s, pm, level, b) && level > 1
    requires Parented(s, child, pm, i) && b.Part(level) != i
    requires forall g | g in s.level && !Under(s, g, child, level - 1) :: TableAt(m', g) == TableAt(s.memory, g)
    ensures Translate(m', pm, level, b) == Translate(s.memory, pm, level, b)
  {
    hide Leveled;
    assert TableAt(m', pm) == TableAt(s.memory, pm) by {
      assert !Under(s, pm, child, level - 1);
    }
    if EntryAt(s.memory, pm, b.Part(level)).present {
      ChildOf(s, pm, level, b.Part(level));
      SiblingKept(s, m', child, EntryAt(s.memory, pm, b.Part(level)).addr, level - 1, b);
    }
  }

  /** Changing only a table leaves the walks below its children alone. */
  lemma BelowKept(s: Vm, m': map<nat, Table>, pm: nat, level: nat, f: nat, b: LinearAddress)
    requires Leveled(s) && Down(s) && 1 < level <= 4 && CanWalk(s, f, level - 1, b)
    requires pm in s.level && s.level[pm] == level
    requires forall g | g in s.level && g != pm :: TableAt(m', g) == TableAt(s.memory, g)
    ensures Translate(m', f, level - 1, b) == Translate(s.memory, f, level - 1, b)
  {
    assert forall g | g in s.level && Under(s, g, f, level - 1) :: g != pm;
    TranslateReadsSubtree(s, m', f, level - 1, b);
  }

  /** What entering an entry does to memory: only table pm, there only entry i, and a new child is empty. */
  ghost predicate EnteredMemory(s: Vm, m': map<nat, Table>, pm: nat, i: nat)
    requires i < ENTRIES
  {
    && (forall g | g in s.level && g != pm :: TableAt(m', g) == TableAt(s.memory, g))
    && (forall j | 0 <= j < ENTRIES && j != i :: EntryAt(m', pm, j) == EntryAt(s.memory, pm, j))
    && (if EntryAt(s.memory, pm, i).present then EntryAt(m', pm, i).addr == EntryAt(s.memory, pm, i).addr
        else TableAt(m', EntryAt(m', pm, i).addr) == EmptyTable())
  }

  /** Entering an entry maps no page, except at level 1 the page of the entry itself. */
  lemma EnterMapsNothingElse(s: Vm, m': map<nat, Table>, pm: nat, level: nat, i: nat, b: LinearAddress)
    requires Leveled(s) && Down(s) && CanWalk(s, pm, level, b) && i < ENTRIES && EnteredMemory(s, m', pm, i)
    requires level == 1 ==> b.Part(1) != i
    requires Translate(m', pm, level, b).Mapped?
    ensures Translate(s.memory, pm, level, b).Mapped?
  {
    var j := b.Part(level);
    if EntryAt(s.memory, pm, j).present {
      ChildOf(s, pm, level, j);
      if level > 1 {
        BelowKept(s, m', pm, level, EntryAt(s.memory, pm, j).addr, b);
      }
    }
  }

  lemma EnteredChangesOneEntry(s: Vm, pm: nat, level: nat, i: nat)
    requires Leveled(s) && pm in s.level && i < ENTRIES && Entered(s, pm, level, i).ok
    ensures EnteredMemory(s, Entered(s, pm, level, i).vm.memory, pm, i)
  {
    var child := SetNewPageMapIfNotPresent(s, pm, level, i);
    if !EntryAt(s.memory, pm, i).present {
      assert FreeRun(s.used, child.frame, 1);
      assert child.frame !in s.used && child.frame !in s.level;
      forall j | 0 <= j < ENTRIES
        ensures EntryAt(child.vm.memory, pm, j) ==
                  if j == i then EntryAt(s.memory, pm, i).(addr := child.frame, present := true)
                  else EntryAt(s.memory, pm, j)
      {
        LinkEntries(s, pm, level, i, child.frame, pm, j);
      }
    }
    forall j | 0 <= j < ENTRIES
      ensures EntryAt(Open(child.vm, pm, i).memory, pm, j) ==
                if j == i then EntryAt(child.vm.memory, pm, j).(writable := true, user := true)
                else EntryAt(child.vm.memory, pm, j)
    {
      OpenEntries(child.vm, pm, i, pm, j);
    }
  }

  /** The data word of an entry that is present, writable and user, and points at a frame. */
  lemma OpenEntryWord(frame: nat)
    ensures NO_ENTRY.(present := true, writable := true, user := true, addr := frame).Data() == 4096 * frame + 7
  {
    var e := NO_ENTRY.(present := true, writable := true, user := true, addr := frame);
    assert High(0, frame, 0) == 8 * frame;
    assert Cons(false, Cons(false, Cons(false, 8 * frame))) == 64 * frame;
    assert Cons(false, Cons(false, Cons(false, 64 * frame))) == 512 * frame;
  }

  /** So that is the word SetupPageMap leaves in an entry that was zero. */
  lemma EnteredWord(s: Vm, pm: nat, level: nat, i: nat)
    requires Inv(s) && pm in s.level && s.level[pm] == level >= 1 && OwnEntry(level, i)
    requires Entered(s, pm, level, i).ok && EntryAt(s.memory, pm, i) == NO_ENTRY
    ensures var c := Entered(s, pm, level, i);
            EntryAt(c.vm.memory, pm, i).Data() == 4096 * c.frame + 7
  {
    var child := SetNewPageMapIfNotPresent(s, pm, level, i);
    assert FreeRun(s.used, child.frame, 1);
    LinkEntries(s, pm, level, i, child.frame, pm, i);
    OpenEntries(child.vm, pm, i, pm, i);
    OpenEntryWord(child.frame);
  }

  // ---------------------------------------------------------------- the range a call maps

  /** b selects one of the n pages that start at a, both counted below a table of the given level. */
  predicate InRange(a: LinearAddress, b: LinearAddress, level: nat, n: nat) {
    PageNumber(a, level) <= PageNumber(b, level) < PageNumber(a, level) + n
  }

  /** Pages a call of FillEntry or SetupPageMap can place before its table is exhausted. */
  function Placed(n: nat, room: int): int {
    if n <= room then n else room
  }

  /** The first pages of entries i and j, as far apart as their indices. */
  lemma EntryOffsets(i: nat, j: nat, span: nat)
    ensures j < i ==> j * span + span <= i * span
    ensures i < j ==> i * span + span <= j * span
    ensures (i + 1) * span == i * span + span
  {
    if j < i {
      MulLe(j + 1, i, span);
    } else if i < j {
      MulLe(i + 1, j, span);
    }
  }

  lemma SplitAtEntry(order: int, start: nat, other: nat, span: nat, v: nat, w: nat, n: nat)
    requires v < span && w < span
    requires order == 0 ==> other == start
    requires order < 0 ==> other + span <= start
    requires order > 0 ==> start + span <= other
    ensures var rest := n - Placed(n, span - v);
            start + v <= other + w < start + v + n <==>
              (order == 0 && v <= w < v + n) || start + span <= other + w < start + span + rest
  {
  }

  /** The pages of a range lie below the first entry, or in the range that continues at the next one. */
  lemma RangeSplits(a: LinearAddress, b: LinearAddress, level: nat, n: nat)
    requires a.Valid() && b.Valid() && 1 <= level <= 4
    ensures var rest := n - Placed(n, Span(level - 1) - PageNumber(a, level - 1));
            rest >= 0 &&
            (InRange(a, b, level, n) <==>
              (b.Part(level) == a.Part(level) && InRange(a, b, level - 1, n)) ||
              (a.Part(level) < 511 && InRange(NextEntry(a, level), b, level, rest)))
  {
    hide ZeroParts, PageNumber, Span, LinearAddress.Part;
    var i: int, j: int, span := a.Part(level), b.Part(level), Span(level - 1);
    var v, w := PageNumber(a, level - 1), PageNumber(b, level - 1);
    PageNumberSplits(a, level);
    PageNumberSplits(b, level);
    EntryOffsets(i, j, span);
    SplitAtEntry(j - i, i * span, j * span, span, v, w, n);
    if i < 511 {
      NextPageNumber(a, level);
    }
  }

  lemma PageNumberSplits(a: LinearAddress, level: nat)
    requires a.Valid() && 1 <= level <= 4
    ensures PageNumber(a, level) == a.Part(level) * Span(level - 1) + PageNumber(a, level - 1)
    ensures PageNumber(a, level - 1) < Span(level - 1) && a.Part(level) <= 511
  {
    PageNumberBound(a, level - 1);
  }

  /** What a call promises about one address. */
  ghost predicate Maps(m: map<nat, Table>, m': map<nat, Table>, pm: nat, level: nat, b: LinearAddress,
                       inRange: bool, ok: bool)
    requires 1 <= level <= 4 && b.Valid()
  {
    && (inRange && ok ==> Translate(m', pm, level, b).Mapped? && Translate(m', pm, level, b).open)
    && (!inRange && Translate(m', pm, level, b).Mapped? ==> Translate(m, pm, level, b).Mapped?)
  }

  ghost predicate OutOfFrames(s: Vm) {
    !OneFrame(s.used, s.begin, s.end).Block?
  }

  lemma EnterFailsOutOfFrames(s: Vm, pm: nat, level: nat, i: nat)
    requires i < ENTRIES && !Entered(s, pm, level, i).ok
    ensures OutOfFrames(Entered(s, pm, level, i).vm)
  {
  }

  lemma {:induction false} FillCounts(s: Vm, pm: nat, level: nat, a: LinearAddress, n: nat)
    requires 1 <= level <= 4 && a.Valid() && n > 0
    ensures var r := FillEntry(s, pm, level, a, n);
            && (r.ok ==> r.remaining == n - Placed(n, Span(level - 1) - PageNumber(a, level - 1)))
            && (!r.ok ==> OutOfFrames(r.vm))
    decreases level, ENTRIES - a.Part(level), 0
  {
    hide Entered;
    var child := Entered(s, pm, level, a.Part(level));
    if !child.ok {
      EnterFailsOutOfFrames(s, pm, level, a.Part(level));
    } else if level > 1 {
      SetupCounts(child.vm, child.frame, level - 1, a, n);
    }
  }

  /** A successful call reports how many pages lie behind its table; a failing one stopped for want of a frame. */
  lemma {:induction false} SetupCounts(s: Vm, pm: nat, level: nat, a: LinearAddress, n: nat)
    requires 1 <= level <= 4 && a.Valid()
    ensures var r := SetupPageMap(s, pm, level, a, n);
            && (r.ok ==> r.remaining == n - Placed(n, Span(level) - PageNumber(a, level)))
            && (!r.ok ==> OutOfFrames(r.vm))
    decreases level, ENTRIES - a.Part(level), 1
  {
    hide FillEntry;
    PageNumberBound(a, level);
    if n > 0 {
      FillCounts(s, pm, level, a, n);
      RemainingSplits(a, level, n);
      var filled := FillEntry(s, pm, level, a, n);
      if filled.ok && a.Part(level) < 511 {
        NextPageNumber(a, level);
        SetupCounts(filled.vm, pm, level, NextEntry(a, level), filled.remaining);
      }
    }
  }

  /** The pages left over after an entry, and the room left for them, add up. */
  lemma RemainingSplits(a: LinearAddress, level: nat, n: nat)
    requires a.Valid() && 1 <= level <= 4
    ensures var rest := n - Placed(n, Span(level - 1) - PageNumber(a, level - 1));
            && rest >= 0
            && (a.Part(level) == 511 ==> rest == n - Placed(n, Span(level) - PageNumber(a, level)))
            && (a.Part(level) < 511 ==>
                  rest - Placed(rest, Span(level) - PageNumber(NextEntry(a, level), level)) ==
                  n - Placed(n, Span(level) - PageNumber(a, level)))
  {
    PageNumberBound(a, level - 1);
    var i: int, span := a.Part(level), Span(level - 1);
    EntryOffsets(i, 511, span);
    assert Span(level) == 511 * span + span;
    if i < 511 {
      NextPageNumber(a, level);
    }
  }

  ghost predicate InEntry(a: LinearAddress, b: LinearAddress, level: nat, n: nat)
    requires level >= 1
  {
    b.Part(level) == a.Part(level) && InRange(a, b, level - 1, n)
  }

  lemma EnterMaps(s: Vm, pm: nat, level: nat, a: LinearAddress, n: nat, b: LinearAddress)
    requires CanSetup(s, pm, level, a) && n > 0 && CanWalk(s, pm, level, b)
    ensures var c := Entered(s, pm, level, a.Part(level));
            && (level == 1 ==> Maps(s.memory, c.vm.memory, pm, 1, b, InEntry(a, b, 1, n), c.ok))
            && (level > 1 && Translate(c.vm.memory, pm, level, b).Mapped? ==>
                  Translate(s.memory, pm, level, b).Mapped?)
  {
    hide Leveled, Grown, EnteredMemory;
    var i := a.Part(level);
    EnterEntry(s, pm, level, i);
    var c := Entered(s, pm, level, i);
    if c.ok {
      EnteredChangesOneEntry(s, pm, level, i);
      if Translate(c.vm.memory, pm, level, b).Mapped? && (level == 1 ==> b.Part(1) != i) {
        EnterMapsNothingElse(s, c.vm.memory, pm, level, i, b);
      }
    }
  }

  lemma SetupKeepsRest(s: Vm, pm: nat, level: nat, a: LinearAddress, n: nat)
    requires CanSetup(s, pm, level, a)
    ensures OutsideKept(s, SetupPageMap(s, pm, level, a, n).vm, pm, level)
    ensures EntriesKept(s, SetupPageMap(s, pm, level, a, n).vm)
  {
    SetupGrows(s, pm, level, a, n);
  }

  lemma BelowMaps(s: Vm, r: Setup, child: nat, pm: nat, level: nat, a: LinearAddress, n: nat, b: LinearAddress)
    requires Leveled(s) && Down(s) && CanWalk(s, pm, level, b) && level > 1 && a.Valid()
    requires Parented(s, child, pm, a.Part(level)) && OutsideKept(s, r.vm, child, level - 1)
    requires OpenEntry(EntryAt(s.memory, pm, a.Part(level)), child)
    requires Maps(s.memory, r.vm.memory, child, level - 1, b, InRange(a, b, level - 1, n), r.ok)
    ensures Maps(s.memory, r.vm.memory, pm, level, b, InEntry(a, b, level, n), r.ok)
  {
    if b.Part(level) != a.Part(level) {
      OtherEntriesKept(s, r.vm.memory, child, pm, a.Part(level), level, b);
    } else {
      assert TableAt(r.vm.memory, pm) == TableAt(s.memory, pm) by {
        assert !Under(s, pm, child, level - 1);
      }
    }
  }

  /** An entered entry whose child is about to be filled. */
  ghost predicate CanFillChild(s: Vm, child: nat, pm: nat, level: nat, a: LinearAddress) {
    level > 1 && CanSetup(s, child, level - 1, a) && pm in s.level && s.level[pm] == level <= 4 &&
    Parented(s, child, pm, a.Part(level)) && OpenEntry(EntryAt(s.memory, pm, a.Part(level)), child)
  }

  lemma EnteredCanFillChild(s: Vm, pm: nat, level: nat, a: LinearAddress)
    requires CanSetup(s, pm, level, a) && level > 1 && Entered(s, pm, level, a.Part(level)).ok
    ensures var c := Entered(s, pm, level, a.Part(level)); CanFillChild(c.vm, c.frame, pm, level, a)
  {
    EnterEntry(s, pm, level, a.Part(level));
    var c := Entered(s, pm, level, a.Part(level));
    ChildCanSetup(s, c.vm, c.frame, pm, level, a);
  }

  lemma {:induction false} ChildMaps(s: Vm, child: nat, pm: nat, level: nat, a: LinearAddress, n: nat, b: LinearAddress)
    requires CanFillChild(s, child, pm, level, a) && n > 0 && CanWalk(s, pm, level, b)
    ensures var r := SetupPageMap(s, child, level - 1, a, n);
            Maps(s.memory, r.vm.memory, pm, level, b, InEntry(a, b, level, n), r.ok)
    decreases level - 1, ENTRIES, 2
  {
    hide SetupPageMap, FillEntry, Maps, InRange, InEntry, OutsideKept, EntriesKept, OpenEntry, Leveled, Down, Parented;
    SetupMaps(s, child, level - 1, a, n, b);
    SetupKeepsRest(s, child, level - 1, a, n);
    BelowMaps(s, SetupPageMap(s, child, level - 1, a, n), child, pm, level, a, n, b);
  }

  lemma {:induction false} FillMaps(s: Vm, pm: nat, level: nat, a: LinearAddress, n: nat, b: LinearAddress)
    requires CanSetup(s, pm, level, a) && n > 0 && CanWalk(s, pm, level, b)
    ensures var r := FillEntry(s, pm, level, a, n);
            Maps(s.memory, r.vm.memory, pm, level, b, InEntry(a, b, level, n), r.ok)
    decreases level, ENTRIES - a.Part(level), 0
  {
    EnterMaps(s, pm, level, a, n, b);
    var child := Entered(s, pm, level, a.Part(level));
    if child.ok && level > 1 {
      EnteredCanFillChild(s, pm, level, a);
      ChildMaps(child.vm, child.frame, pm, level, a, n, b);
    }
  }

  /**
   * SetupPageMap maps, writable and user on the whole path, every page of its range that lies below its table,
   * and no page outside the range.
   */
  lemma {:induction false} SetupMaps(s: Vm, pm: nat, level: nat, a: LinearAddress, n: nat, b: LinearAddress)
    requires CanSetup(s, pm, level, a) && CanWalk(s, pm, level, b)
    ensures var r := SetupPageMap(s, pm, level, a, n);
            Maps(s.memory, r.vm.memory, pm, level, b, InRange(a, b, level, n), r.ok)
    decreases level, ENTRIES - a.Part(level), 1
  {
    hide TableAt, FillEntry;
    if n > 0 {
      FillMaps(s, pm, level, a, n, b);
      RangeSplits(a, b, level, n);
      var filled := FillEntry(s, pm, level, a, n);
      if filled.ok && a.Part(level) < 511 {
        FillCounts(s, pm, level, a, n);
        FilledCanContinue(s, pm, level, a, n, b);
        SetupMaps(filled.vm, pm, level, NextEntry(a, level), filled.remaining, b);
        SetupKeepsRest(filled.vm, pm, level, NextEntry(a, level), filled.remaining);
        MapsCompose(s, filled.vm, SetupPageMap(filled.vm, pm, level, NextEntry(a, level), filled.remaining),
                    pm, level, b, InEntry(a, b, level, n), InRange(NextEntry(a, level), b, level, filled.remaining));
      }
    }
  }

  lemma FilledCanContinue(s: Vm, pm: nat, level: nat, a: LinearAddress, n: nat, b: LinearAddress)
    requires CanSetup(s, pm, level, a) && n > 0 && CanWalk(s, pm, level, b) && a.Part(level) < 511
    ensures var filled := FillEntry(s, pm, level, a, n).vm;
            CanSetup(filled, pm, level, NextEntry(a, level)) && CanWalk(filled, pm, level, b)
    ensures NextEntry(a, level).Part(level) == a.Part(level) + 1
  {
    FillGrows(s, pm, level, a, n);
    GrownKeepsCanSetup(s, FillEntry(s, pm, level, a, n).vm, pm, level, a);
  }

  lemma MapsCompose(s: Vm, mid: Vm, r: Setup, pm: nat, level: nat, b: LinearAddress, first: bool, rest: bool)
    requires Leveled(mid) && Down(mid) && EntriesKept(mid, r.vm) && CanWalk(mid, pm, level, b)
    requires Maps(s.memory, mid.memory, pm, level, b, first, true)
    requires Maps(mid.memory, r.vm.memory, pm, level, b, rest, r.ok)
    ensures Maps(s.memory, r.vm.memory, pm, level, b, first || rest, r.ok)
  {
    if Translate(mid.memory, pm, level, b).Mapped? {
      TranslateKept(mid, r.vm, pm, level, b);
    }
  }

  // ---------------------------------------------------------------- freshness and injectivity

  /** A walk that ends in a frame of the old forest started in the old forest. */
  lemma {:induction false} WalkToOldPage(s: Vm, s': Vm, f: nat, level: nat, b: LinearAddress)
    requires Leveled(s) && Leveled(s') && Down(s') && ForestGrows(s, s') && CanWalk(s', f, level, b)
    requires Translate(s'.memory, f, level, b).Mapped? && Translate(s'.memory, f, level, b).frame in s.level
    ensures f in s.level && Parented(s', EntryAt(s'.memory, f, b.Part(level)).addr, f, b.Part(level))
    ensures Parented(s, EntryAt(s'.memory, f, b.Part(level)).addr, f, b.Part(level))
    decreases level
  {
    ChildOf(s', f, level, b.Part(level));
    if level > 1 {
      WalkToOldPage(s, s', EntryAt(s'.memory, f, b.Part(level)).addr, level - 1, b);
    }
  }

  /** A page whose frame was already in the forest was already mapped. */
  lemma {:induction false} OldPageWasMapped(s: Vm, s': Vm, f: nat, level: nat, b: LinearAddress)
    requires Leveled(s) && Up(s) && Leveled(s') && Down(s') && ForestGrows(s, s')
    requires CanWalk(s', f, level, b) && Translate(s'.memory, f, level, b).Mapped?
    requires Translate(s'.memory, f, level, b).frame in s.level
    ensures Translate(s.memory, f, level, b).Mapped?
    decreases level
  {
    hide Down, ForestGrows;
    WalkToOldPage(s, s', f, level, b);
    var c := EntryAt(s'.memory, f, b.Part(level)).addr;
    assert PointsTo(s, s.parent[c], c);
    if level > 1 {
      OldPageWasMapped(s, s', c, level - 1, b);
    }
  }

  /** A newly mapped page gets a zeroed frame that was free before the call and is marked after it. */
  lemma NewPageIsFresh(s: Vm, pm: nat, level: nat, a: LinearAddress, n: nat, b: LinearAddress)
    requires CanSetup(s, pm, level, a) && CanWalk(s, pm, level, b)
    requires Translate(s.memory, pm, level, b).Unmapped?
    requires Translate(SetupPageMap(s, pm, level, a, n).vm.memory, pm, level, b).Mapped?
    ensures var s' := SetupPageMap(s, pm, level, a, n).vm;
            var frame := Translate(s'.memory, pm, level, b).frame;
            frame !in s.used && frame in s'.used && TableAt(s'.memory, frame) == EmptyTable()
  {
    hide SetupPageMap, FillEntry;
    SetupGrows(s, pm, level, a, n);
    var s' := SetupPageMap(s, pm, level, a, n).vm;
    TranslateEndsInPage(s', pm, level, b);
    if Translate(s'.memory, pm, level, b).frame in s.level {
      OldPageWasMapped(s, s', pm, level, b);
    }
  }

  predicate SamePage(b: LinearAddress, b': LinearAddress, level: nat) {
    forall l | 1 <= l <= level :: b.Part(l) == b'.Part(l)
  }

  /** Two walks reach the same frame only from the same table along the same entries. */
  lemma {:induction false} WalksAreInjective(s: Vm, f: nat, f': nat, level: nat, b: LinearAddress, b': LinearAddress)
    requires Leveled(s) && Down(s) && CanWalk(s, f, level, b) && CanWalk(s, f', level, b')
    requires Translate(s.memory, f, level, b).Mapped? && Translate(s.memory, f', level, b').Mapped?
    requires Translate(s.memory, f, level, b).frame == Translate(s.memory, f', level, b').frame
    ensures f == f' && SamePage(b, b', level)
    decreases level
  {
    ChildOf(s, f, level, b.Part(level));
    ChildOf(s, f', level, b'.Part(level));
    if level > 1 {
      WalksAreInjective(s, EntryAt(s.memory, f, b.Part(level)).addr, EntryAt(s.memory, f', b'.Part(level)).addr,
                        level - 1, b, b');
    }
  }
}
