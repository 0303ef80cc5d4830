/** CleanPageMap: freeing everything below a table. */
module Teardown {
  import opened Sequences
  import opened Paging
  import opened PageTables

  /** Frame c, handed back to the allocator, and the entry that pointed to it, zeroed. */
  ghost function Drop(s: Vm, pm: nat, i: nat, c: nat): Vm
    requires i < ENTRIES
  {
    s.(memory := s.memory[pm := TableAt(s.memory, pm)[i := NO_ENTRY]],
       used := s.used - {c}, freed := s.freed + [c], level := s.level - {c}, parent := s.parent - {c})
  }

  /** The loop of CleanPageMap from entry i on. */
  ghost function CleanPageMap(s: Vm, pm: nat, level: nat, i: nat): Vm
    requires level >= 1
    decreases level, if i < ENTRIES then ENTRIES - i else 0
  {
    if i >= ENTRIES then s
    else
      var e := EntryAt(s.memory, pm, i);
      if !e.present then CleanPageMap(s, pm, level, i + 1)
      else
        var below := if level > 1 then CleanPageMap(s, e.addr, level - 1, 0) else s;
        CleanPageMap(Drop(below, pm, i, e.addr), pm, level, i + 1)
  }

  /** The loop body for a present entry: the table below is cleaned, then the entry dropped. */
  ghost function WithoutEntry(s: Vm, pm: nat, level: nat, i: nat): Vm
    requires level >= 1 && i < ENTRIES
  {
    var c := EntryAt(s.memory, pm, i).addr;
    Drop(if level > 1 then CleanPageMap(s, c, level - 1, 0) else s, pm, i, c)
  }

  /** No process-owned entry of f is present. */
  ghost predicate Childless(s: Vm, f: nat) {
    f in s.level && (s.level[f] >= 1 ==> forall j: nat :: !Present(s, f, j))
  }

  ghost predicate SameSpaces(s: Vm, s': Vm) {
    s'.begin == s.begin && s'.end == s.end && s'.cr3 == s.cr3 && s'.boot == s.boot && s'.kernel == s.kernel
  }

  ghost predicate Removed(s: Vm, s': Vm, f: nat) {
    f in s.level && f !in s'.level
  }

  ghost predicate RemovedBelow(s: Vm, s': Vm, pm: nat, level: nat) {
    && (forall f | Removed(s, s', f) :: s.level[f] < level && Under(s, f, pm, level))
    && (forall f :: f in s'.used <==> f in s.used && !Removed(s, s', f))
  }

  ghost predicate RestKept(s: Vm, s': Vm, pm: nat, level: nat) {
    forall f | !Under(s, f, pm, level) :: TableAt(s'.memory, f) == TableAt(s.memory, f)
  }

  /** The frames freed between two states. */
  ghost function NewlyFreed(s: Vm, s': Vm): seq<nat> {
    if |s.freed| <= |s'.freed| then s'.freed[|s.freed|..] else []
  }

  /** Every removed frame was freed, once, and no other frame was. */
  ghost predicate FreedOnce(s: Vm, s': Vm) {
    && s.freed <= s'.freed
    && NoDuplicates(NewlyFreed(s, s'))
    && (forall f :: f in NewlyFreed(s, s') <==> Removed(s, s', f))
  }

  ghost predicate Shrunk(s: Vm, s': Vm, pm: nat, level: nat) {
    && SameSpaces(s, s') && ForestGrows(s', s) && RemovedBelow(s, s', pm, level)
    && RestKept(s, s', pm, level) && FreedOnce(s, s')
  }

  // ---------------------------------------------------------------- composing removals

  lemma RemovedTransitive(s0: Vm, s1: Vm, s2: Vm, pm: nat, level: nat)
    requires Leveled(s1) && ForestGrows(s1, s0) && ForestGrows(s2, s1)
    requires RemovedBelow(s0, s1, pm, level) && RemovedBelow(s1, s2, pm, level)
    ensures RemovedBelow(s0, s2, pm, level)
  {
    hide Ancestor;
    forall f | Removed(s0, s2, f)
      ensures s0.level[f] < level && Under(s0, f, pm, level)
    {
      if f in s1.level {
        assert Removed(s1, s2, f);
        UnderGrows(s1, s0, f, pm, level);
      } else {
        assert Removed(s0, s1, f);
      }
    }
    forall f
      ensures Removed(s0, s2, f) <==> Removed(s0, s1, f) || Removed(s1, s2, f)
    {
    }
  }

  lemma RestTransitive(s0: Vm, s1: Vm, s2: Vm, pm: nat, level: nat)
    requires Leveled(s1) && ForestGrows(s1, s0)
    requires RestKept(s0, s1, pm, level) && RestKept(s1, s2, pm, level)
    ensures RestKept(s0, s2, pm, level)
  {
    forall f | !Under(s0, f, pm, level)
      ensures TableAt(s2.memory, f) == TableAt(s0.memory, f)
    {
      if f in s1.level {
        UnderGrows(s1, s0, f, pm, level);
      }
    }
  }

  lemma FreedTransitive(s0: Vm, s1: Vm, s2: Vm)
    requires ForestGrows(s1, s0) && ForestGrows(s2, s1) && FreedOnce(s0, s1) && FreedOnce(s1, s2)
    ensures FreedOnce(s0, s2)
  {
    var first, second := NewlyFreed(s0, s1), NewlyFreed(s1, s2);
    assert NewlyFreed(s0, s2) == first + second;
    forall i, j | 0 <= i < j < |first + second|
      ensures (first + second)[i] != (first + second)[j]
    {
      if i < |first| <= j {
        assert first[i] in first && second[j - |first|] in second;
      }
    }
    forall f
      ensures f in first + second <==> Removed(s0, s2, f)
    {
      assert f in first <==> Removed(s0, s1, f);
      assert f in second <==> Removed(s1, s2, f);
    }
  }

  lemma ShrunkTransitive(s0: Vm, s1: Vm, s2: Vm, pm: nat, level: nat)
    requires Leveled(s1) && Shrunk(s0, s1, pm, level) && Shrunk(s1, s2, pm, level)
    ensures Shrunk(s0, s2, pm, level)
  {
    hide Leveled;
    RemovedTransitive(s0, s1, s2, pm, level);
    RestTransitive(s0, s1, s2, pm, level);
    FreedTransitive(s0, s1, s2);
  }

  lemma UnderLifts(s: Vm, f: nat, child: nat, pm: nat, i: nat, level: nat)
    requires Leveled(s) && Parented(s, child, pm, i) && s.level[pm] == level >= 1
    requires Under(s, f, child, level - 1)
    ensures Under(s, f, pm, level) && f != pm
  {
  }

  /** Removing below a child is removing below its parent. */
  lemma ShrunkLifts(s: Vm, s': Vm, child: nat, pm: nat, i: nat, level: nat)
    requires Leveled(s) && Parented(s, child, pm, i) && s.level[pm] == level >= 1
    requires Shrunk(s, s', child, level - 1)
    ensures Shrunk(s, s', pm, level) && pm in s'.level && TableAt(s'.memory, pm) == TableAt(s.memory, pm)
  {
    hide ForestGrows, Under;
    forall f | Under(s, f, child, level - 1)
      ensures Under(s, f, pm, level) && f != pm
    {
      UnderLifts(s, f, child, pm, i, level);
    }
    assert !Removed(s, s', pm);
    forall f | Removed(s, s', f)
      ensures s.level[f] < level && Under(s, f, pm, level)
    {
    }
  }

  // ---------------------------------------------------------------- dropping one frame

  ghost predicate CanDrop(s: Vm, pm: nat, i: nat, c: nat) {
    && pm in s.level && 1 <= s.level[pm] <= 3 && i < ENTRIES
    && Parented(s, c, pm, i) && Childless(s, c)
  }

  lemma DropEntries(s: Vm, pm: nat, i: nat, c: nat, f: nat, j: nat)
    requires i < ENTRIES && j < ENTRIES
    ensures EntryAt(Drop(s, pm, i, c).memory, f, j) ==
              if f == pm && j == i then NO_ENTRY else EntryAt(s.memory, f, j)
  {
  }

  lemma DropKeepsDown(s: Vm, pm: nat, i: nat, c: nat)
    requires Leveled(s) && Down(s) && CanDrop(s, pm, i, c)
    ensures Down(Drop(s, pm, i, c))
  {
    var s' := Drop(s, pm, i, c);
    forall f: nat, j: nat | Present(s', f, j)
      ensures Parented(s', EntryAt(s'.memory, f, j).addr, f, j)
    {
      DropEntries(s, pm, i, c, f, j);
      assert Present(s, f, j);
    }
  }

  lemma NoChildOfChildless(s: Vm, c: nat, g: nat)
    requires Leveled(s) && Up(s) && Childless(s, c) && g in s.parent
    ensures s.parent[g].table != c
  {
    assert PointsTo(s, s.parent[g], g);
    if s.parent[g].table == c {
      assert Present(s, c, s.parent[g].index);
    }
  }

  lemma DropKeepsUp(s: Vm, pm: nat, i: nat, c: nat)
    requires Leveled(s) && Up(s) && CanDrop(s, pm, i, c)
    ensures Up(Drop(s, pm, i, c)) && Leveled(Drop(s, pm, i, c))
  {
    hide EntryAt, TableAt;
    var s' := Drop(s, pm, i, c);
    forall g | g in s'.parent
      ensures PointsTo(s', s'.parent[g], g) && s'.parent[g].table in s'.level
    {
      assert PointsTo(s, s.parent[g], g);
      DropEntries(s, pm, i, c, s.parent[g].table, s.parent[g].index);
      NoChildOfChildless(s, c, g);
    }
  }

  lemma DropKeepsKernelHalf(s: Vm, pm: nat, i: nat, c: nat)
    requires Leveled(s) && KernelHalf(s) && CanDrop(s, pm, i, c)
    ensures KernelHalf(Drop(s, pm, i, c))
  {
    var s' := Drop(s, pm, i, c);
    forall r, j | r in s'.level && s'.level[r] == 4 && 0 <= j < 256
      ensures EntryAt(s'.memory, r, j) == s'.kernel[j]
    {
      DropEntries(s, pm, i, c, r, j);
    }
  }

  lemma DropKeepsInv(s: Vm, pm: nat, i: nat, c: nat)
    requires Inv(s) && CanDrop(s, pm, i, c)
    ensures Inv(Drop(s, pm, i, c))
  {
    DropKeepsDown(s, pm, i, c);
    DropKeepsUp(s, pm, i, c);
    DropKeepsKernelHalf(s, pm, i, c);
  }

  lemma DropShrinks(s: Vm, pm: nat, i: nat, c: nat)
    requires Leveled(s) && CanDrop(s, pm, i, c)
    ensures Shrunk(s, Drop(s, pm, i, c), pm, s.level[pm])
  {
    var s' := Drop(s, pm, i, c);
    assert NewlyFreed(s, s') == [c];
    assert Ancestor(s, c, 1) == pm by {
      assert Ancestor(s, c, 0) == c;
    }
    assert Under(s, pm, pm, s.level[pm]);
  }

  // ---------------------------------------------------------------- the whole loop

  ghost predicate CanClean(s: Vm, pm: nat, level: nat, i: nat) {
    Inv(s) && pm in s.level && 1 <= s.level[pm] == level <= 3 && forall j: nat | j < i :: !Present(s, pm, j)
  }

  lemma ShrunkReflexive(s: Vm, pm: nat, level: nat)
    requires Leveled(s)
    ensures Shrunk(s, s, pm, level)
  {
    assert NewlyFreed(s, s) == [];
  }

  /** Cleaning the table below an entry, if it is a table, leaves the entry ready to be dropped. */
  lemma CleanedChildCanDrop(s: Vm, below: Vm, pm: nat, level: nat, i: nat, c: nat)
    requires Inv(s) && Inv(below) && pm in s.level && 1 <= s.level[pm] == level <= 3 && i < ENTRIES
    requires Parented(s, c, pm, i) && c in below.level && Childless(below, c)
    requires Shrunk(s, below, pm, level) && pm in below.level
    ensures CanDrop(below, pm, i, c)
  {
  }

  lemma DropClearsEntry(s: Vm, pm: nat, level: nat, i: nat, c: nat)
    requires CanClean(s, pm, level, i) && CanDrop(s, pm, i, c)
    ensures CanClean(Drop(s, pm, i, c), pm, level, i + 1)
  {
    DropKeepsInv(s, pm, i, c);
    var s' := Drop(s, pm, i, c);
    forall j: nat | j < i + 1
      ensures !Present(s', pm, j)
    {
      if j < ENTRIES {
        DropEntries(s, pm, i, c, pm, j);
        assert j < i ==> !Present(s, pm, j);
      }
    }
  }

  /** CleanPageMap keeps the forest intact, removes only frames below its table, and empties the table. */
  lemma {:induction false} CleanShrinks(s: Vm, pm: nat, level: nat, i: nat)
    requires CanClean(s, pm, level, i)
    ensures var s' := CleanPageMap(s, pm, level, i);
            Inv(s') && Shrunk(s, s', pm, level) && pm in s'.level && Childless(s', pm)
    decreases level, if i < ENTRIES then ENTRIES - i else 0
  {
    hide PointsTo, Shrunk;
    hide EntryAt, RemovedBelow, Leveled;
    if i >= ENTRIES {
      ShrunkReflexive(s, pm, level);
    } else if !EntryAt(s.memory, pm, i).present {
      CleanShrinks(s, pm, level, i + 1);
    } else {
      var c := EntryAt(s.memory, pm, i).addr;
      var below := CleanEntry(s, pm, level, i);
      var dropped := Drop(below, pm, i, c);
      DropShrinks(below, pm, i, c);
      DropClearsEntry(below, pm, level, i, c);
      CleanShrinks(dropped, pm, level, i + 1);
      var s' := CleanPageMap(dropped, pm, level, i + 1);
      ShrunkTransitive(s, below, dropped, pm, level);
      ShrunkTransitive(s, dropped, s', pm, level);
    }
  }

  /** The part of an iteration that cleans the table below the entry. */
  lemma {:induction false} CleanEntry(s: Vm, pm: nat, level: nat, i: nat) returns (below: Vm)
    requires CanClean(s, pm, level, i) && i < ENTRIES && EntryAt(s.memory, pm, i).present
    ensures var c := EntryAt(s.memory, pm, i).addr;
            && below == (if level > 1 then CleanPageMap(s, c, level - 1, 0) else s)
            && Shrunk(s, below, pm, level) && CanClean(below, pm, level, i) && CanDrop(below, pm, i, c)
    decreases level, ENTRIES - i - 1, 1
  {
    var c := EntryAt(s.memory, pm, i).addr;
    ChildOf(s, pm, level, i);
    if level > 1 {
      CleanShrinks(s, c, level - 1, 0);
      below := CleanPageMap(s, c, level - 1, 0);
      ShrunkLifts(s, below, c, pm, i, level);
    } else {
      below := s;
      ShrunkReflexive(s, pm, level);
    }
    CleanedChildCanDrop(s, below, pm, level, i, c);
    forall j: nat | j < i
      ensures !Present(below, pm, j)
    {
      assert !Present(s, pm, j);
    }
  }
}
