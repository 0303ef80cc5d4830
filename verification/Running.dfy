/** When ExecuteFile gets a program to run, and how many free frames are enough for it. */
module Running {
  import opened Division
  import opened MemoryManager
  import opened Paging
  import opened PageTables
  import opened PageMapping
  import opened Teardown
  import opened AddressSpaces
  import opened Execution
  import opened Segments
  import opened Loader

  /** Allocator range and page-table roots are the same. */
  ghost predicate SameRange(s: Vm, s': Vm) {
    s'.begin == s.begin && s'.end == s.end && s'.cr3 == s.cr3 && s'.boot == s.boot
  }

  /** The frames the allocator can still hand out. */
  ghost function FreeFrames(s: Vm): set<nat> {
    set f | s.begin <= f < Min(s.end, FRAME_COUNT) && f !in s.used
  }

  /** At most k free frames fewer, and none given back. */
  ghost predicate Takes(s: Vm, s': Vm, k: nat) {
    SameRange(s, s') && s.used <= s'.used && |FreeFrames(s)| <= |FreeFrames(s')| + k
  }

  lemma OutOfFramesIff(s: Vm)
    ensures OutOfFrames(s) <==> FreeFrames(s) == {}
  {
    var r := OneFrame(s.used, s.begin, s.end);
    FirstFitIsExact(s.used, s.begin, s.end, 1, r, r);
    if r.Block? {
      assert FreeRun(s.used, r.start, 1);
      assert r.start in FreeFrames(s);
    } else if FreeFrames(s) != {} {
      var f :| f in FreeFrames(s);
      assert FreeRun(s.used, f, 1);
    }
  }

  lemma MoreTakes(s: Vm, s': Vm, k: nat, m: nat)
    requires Takes(s, s', k) && k <= m
    ensures Takes(s, s', m)
  {
  }

  lemma OneTaken(s: Vm, s': Vm, f: nat)
    requires SameRange(s, s') && s'.used == s.used + {f}
    ensures Takes(s, s', 1)
  {
    assert FreeFrames(s') == FreeFrames(s) - {f};
  }

  lemma EnterTakesOne(s: Vm, pm: nat, level: nat, i: nat)
    requires i < ENTRIES
    ensures Takes(s, Entered(s, pm, level, i).vm, 1)
  {
    var c := SetNewPageMapIfNotPresent(s, pm, level, i);
    if !EntryAt(s.memory, pm, i).present && c.ok {
      OneTaken(s, Entered(s, pm, level, i).vm, c.frame);
    }
  }

  /** A level's worth of frames for each page: placed if the call succeeds, requested if not. */
  function Bound(level: nat, n: nat, r: Setup): nat {
    level * if r.ok && r.remaining <= n then n - r.remaining else n
  }

  lemma {:induction false} FillTakes(s: Vm, pm: nat, level: nat, a: LinearAddress, n: nat)
    requires 1 <= level <= 4 && a.Valid() && n > 0
    ensures var r := FillEntry(s, pm, level, a, n);
            r.remaining <= n && Takes(s, r.vm, Bound(level, n, r))
    decreases level, ENTRIES - a.Part(level), 0
  {
    hide Entered, Takes, SetupPageMap, Bound, PageNumber;
    var c := Entered(s, pm, level, a.Part(level));
    EnterTakesOne(s, pm, level, a.Part(level));
    FillCounts(s, pm, level, a, n);
    PageNumberBound(a, level - 1);
    if !c.ok || level == 1 {
      OneIsBound(level, n, FillEntry(s, pm, level, a, n));
      MoreTakes(s, c.vm, 1, Bound(level, n, FillEntry(s, pm, level, a, n)));
    } else {
      SetupTakes(c.vm, c.frame, level - 1, a, n);
      SetupCounts(c.vm, c.frame, level - 1, a, n);
      var r := SetupPageMap(c.vm, c.frame, level - 1, a, n);
      TakesTogether(s, c.vm, r.vm, 1, Bound(level - 1, n, r));
      BoundBelow(level, n, r, FillEntry(s, pm, level, a, n));
      MoreTakes(s, r.vm, 1 + Bound(level - 1, n, r), Bound(level, n, FillEntry(s, pm, level, a, n)));
    }
  }

  lemma OneIsBound(level: nat, n: nat, r: Setup)
    requires level > 0 && n > 0 && (r.ok ==> r.remaining < n)
    ensures 1 <= Bound(level, n, r)
  {
  }

  /** What the table below takes, and the table itself. */
  lemma BoundBelow(level: nat, n: nat, r: Setup, filled: Setup)
    requires level > 1 && n > 0 && r.remaining <= n && (r.ok ==> r.remaining < n)
    requires filled.ok == r.ok && (r.ok ==> filled.remaining == r.remaining)
    ensures 1 + Bound(level - 1, n, r) <= Bound(level, n, filled)
  {
    var placed := if r.ok then n - r.remaining else n;
    assert level * placed == (level - 1) * placed + placed;
  }

  lemma TakesTogether(s: Vm, mid: Vm, s': Vm, k: nat, m: nat)
    requires Takes(s, mid, k) && Takes(mid, s', m)
    ensures Takes(s, s', k + m)
  {
  }

  lemma {:induction false} SetupTakes(s: Vm, pm: nat, level: nat, a: LinearAddress, n: nat)
    requires 1 <= level <= 4 && a.Valid()
    ensures var r := SetupPageMap(s, pm, level, a, n);
            r.remaining <= n && Takes(s, r.vm, Bound(level, n, r))
    decreases level, ENTRIES - a.Part(level), 1
  {
    hide SetupPageMap, FillEntry;
    SetupUnfolds(s, pm, level, a, n);
    if n > 0 {
      hide Takes;
      FillTakes(s, pm, level, a, n);
      var filled := FillEntry(s, pm, level, a, n);
      if filled.ok && a.Part(level) < 511 {
        NextPageNumber(a, level);
        SetupTakes(filled.vm, pm, level, NextEntry(a, level), filled.remaining);
        var r := SetupPageMap(filled.vm, pm, level, NextEntry(a, level), filled.remaining);
        TakesTogether(s, filled.vm, r.vm, Bound(level, n, filled), Bound(level, filled.remaining, r));
        BoundsAdd(level, n, filled, r);
      }
    }
  }

  lemma BoundsAdd(level: nat, n: nat, filled: Setup, r: Setup)
    requires filled.ok && filled.remaining <= n && r.remaining <= filled.remaining
    ensures Bound(level, n, filled) + Bound(level, filled.remaining, r) == Bound(level, n, r)
  {
  }

  // ---------------------------------------------------------------- the steps of ExecuteFile

  lemma SetupTakesAtMost(s: Vm, root: nat, a: ValidAddress, n: nat)
    ensures Takes(s, SetupPageMap(s, root, 4, a, n).vm, 4 * n)
  {
    hide SetupPageMap, Takes;
    SetupTakes(s, root, 4, a, n);
    MoreTakes(s, SetupPageMap(s, root, 4, a, n).vm, Bound(4, n, SetupPageMap(s, root, 4, a, n)), 4 * n);
  }

  /** Pages that all segments together map. */
  function TotalPages(segments: seq<Segment>): nat {
    if segments == [] then 0
    else TotalPages(segments[..|segments| - 1]) + segments[|segments| - 1].Pages()
  }

  lemma {:induction false} LoadTakes(s: Vm, root: nat, segments: seq<Segment>)
    ensures Takes(s, LoadSegments(s, root, segments).vm, 4 * TotalPages(segments))
    ensures !LoadSegments(s, root, segments).ok ==> OutOfFrames(LoadSegments(s, root, segments).vm)
    decreases |segments|
  {
    if segments != [] {
      var front, last := segments[..|segments| - 1], segments[|segments| - 1];
      LoadTakes(s, root, front);
      hide SetupPageMap, Takes;
      var mid := LoadSegments(s, root, front);
      SetupTakesAtMost(mid.vm, root, last.a, last.Pages());
      SetupCounts(mid.vm, root, 4, last.a, last.Pages());
      MoreTakes(s, mid.vm, 4 * TotalPages(front), 4 * TotalPages(segments));
      var s' := SetupPageMap(mid.vm, root, 4, last.a, last.Pages()).vm;
      TakesTogether(s, mid.vm, s', 4 * TotalPages(front), 4 * last.Pages());
    }
  }

  lemma MapPageTakes(s: Vm, root: nat, a: ValidAddress)
    ensures Takes(s, MapPage(s, root, a).vm, 4)
    ensures !MapPage(s, root, a).ok ==> OutOfFrames(MapPage(s, root, a).vm)
  {
    hide SetupPageMap;
    SetupTakesAtMost(s, root, a, 1);
    SetupCounts(s, root, 4, a, 1);
  }

  /** A new address space takes its PML4, from the allocator's range. */
  lemma NewSpaceTakes(s: Vm, task: nat)
    requires task in s.cr3
    ensures var own := SetupPml4(s, task).0;
            && (!SetupPml4(s, task).1 ==> OutOfFrames(s) && own == s)
            && (SetupPml4(s, task).1 ==>
                  var root := OneFrame(s.used, s.begin, s.end).start;
                  && s.begin <= root < Min(s.end, FRAME_COUNT)
                  && own.cr3 == s.cr3[task := root] && own.begin == s.begin && own.end == s.end
                  && s.used <= own.used && |FreeFrames(s)| <= |FreeFrames(own)| + 1)
  {
    var own := SetupPml4(s, task).0;
    if SetupPml4(s, task).1 {
      assert FreeFrames(own) == FreeFrames(s) - {OneFrame(s.used, s.begin, s.end).start};
    }
  }

  /** Building the space of a program with an accepted first segment fails only where no frame is left. */
  lemma BuildTakes(s: Vm, task: nat, segments: seq<Segment>, argsFit: bool)
    requires task in s.cr3 && segments != [] && segments[0].a.Value() >= 0xffff_8000_0000_0000 && argsFit
    ensures var built := BuildSpace(s, task, segments, argsFit);
            && (!built.ok ==> OutOfFrames(built.vm))
            && built.vm.begin == s.begin && built.vm.end == s.end && task in built.vm.cr3
            && |FreeFrames(s)| <= |FreeFrames(built.vm)| + 4 * TotalPages(segments) + 9
            && (built.ok ==> s.begin <= built.vm.cr3[task] < Min(s.end, FRAME_COUNT))
  {
    hide LoadSegments, MapPage, SetupPml4, FreeFrames;
    NewSpaceTakes(s, task);
    var own := SetupPml4(s, task).0;
    if SetupPml4(s, task).1 {
      var root := own.cr3[task];
      LoadTakes(own, root, segments);
      var loaded := LoadSegments(own, root, segments);
      MapPageTakes(loaded.vm, root, ARGS);
      MapPageTakes(MapPage(loaded.vm, root, ARGS).vm, root, STACK);
    }
  }

  lemma {:induction false} CleanKeepsRange(s: Vm, pm: nat, level: nat, i: nat)
    requires level >= 1
    ensures SameRange(s, CleanPageMap(s, pm, level, i))
    decreases level, if i < ENTRIES then ENTRIES - i else 0
  {
    if i < ENTRIES && EntryAt(s.memory, pm, i).present {
      var c := EntryAt(s.memory, pm, i).addr;
      if level > 1 {
        CleanKeepsRange(s, c, level - 1, 0);
      }
      CleanKeepsRange(Drop(if level > 1 then CleanPageMap(s, c, level - 1, 0) else s, pm, i, c), pm, level, i + 1);
    } else if i < ENTRIES {
      CleanKeepsRange(s, pm, level, i + 1);
    }
  }

  /** Taking the space down leaves a free frame: that of the PML4. */
  lemma TakenDownHasFrames(built: Vm, task: nat, slot: nat)
    requires task in built.cr3 && slot < ENTRIES && built.begin <= built.cr3[task] < Min(built.end, FRAME_COUNT)
    ensures !OutOfFrames(FreePml4(CleanSlot(built, built.cr3[task], slot), task))
  {
    var root := built.cr3[task];
    CleanKeepsRange(Detach(built, root, slot), EntryAt(built.memory, root, slot).addr, 3, 0);
    hide CleanPageMap;
    var s' := FreePml4(CleanSlot(built, root, slot), task);
    assert root in FreeFrames(s');
    OutOfFramesIff(s');
  }

  /**
   * ExecuteFile fails if and only if the program has no load segment, or its first one lies below the upper half, or
   * its arguments do not fit, or no frame was left where it stopped.
   */
  lemma ExecuteFileFailsIff(s: Vm, task: nat, segments: seq<Segment>, argsFit: bool)
    requires task in s.cr3
    ensures !ExecuteFile(s, task, segments, argsFit).ok <==>
              || segments == []
              || segments[0].a.Value() < 0xffff_8000_0000_0000
              || !argsFit
              || OutOfFrames(ExecuteFile(s, task, segments, argsFit).vm)
  {
    hide LoadSegments, MapPage, SetupPml4, CleanSlot, FreePml4, OutOfFrames;
    if segments != [] && segments[0].a.Value() >= 0xffff_8000_0000_0000 && argsFit {
      BuildTakes(s, task, segments, argsFit);
      var built := BuildSpace(s, task, segments, argsFit);
      hide BuildSpace;
      if built.ok {
        TakenDownHasFrames(built.vm, task, segments[0].a.pml4);
      }
    }
  }

  /** With more free frames than four for each page, and nine, a program in the upper half runs. */
  lemma RunsWithEnoughFrames(s: Vm, task: nat, segments: seq<Segment>)
    requires task in s.cr3 && segments != [] && segments[0].a.Value() >= 0xffff_8000_0000_0000
    requires |FreeFrames(s)| > 4 * TotalPages(segments) + 9
    ensures ExecuteFile(s, task, segments, true).ok
  {
    hide LoadSegments, MapPage, SetupPml4, CleanSlot, FreePml4, FreeFrames, OutOfFrames;
    BuildTakes(s, task, segments, true);
    var built := BuildSpace(s, task, segments, true);
    hide BuildSpace;
    OutOfFramesIff(built.vm);
  }
}
