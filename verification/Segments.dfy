/** CopyLoadSegments: which bytes of a program its segments map, and when the kernel's tables stay untouched. */
module Segments {
  import opened Division
  import opened MemoryManager
  import opened Paging
  import opened PageTables
  import opened PageMapping
  import opened Execution

  const UPPER_HALF: nat := 0xffff_8000_0000_0000
  const ADDRESS_END: nat := 0x1_0000_0000_0000_0000

  /** A load segment: its address and its size in memory. */
  datatype Segment = Segment(a: ValidAddress, memsz: nat) {

    /** Pages mapped for the segment: its size counts, the place of its start in a page does not. */
    function Pages(): (pages: nat)
      ensures memsz <= 4096 * pages < memsz + 4096
    {
      (memsz + 4095) / 4096
    }

    function AsRequest(): Request {
      Request(a, Pages())
    }

    /** Some of the segment's pages lie below this slot of the PML4. */
    predicate ReachesSlot(slot: nat) {
      Reaches(a, Pages(), slot)
    }

    predicate InUpperHalf() {
      UPPER_HALF <= a.Value() && a.Value() + memsz <= ADDRESS_END
    }
  }

  datatype Exec = Exec(vm: Vm, ok: bool)

  /** CopyLoadSegments: the segments in order, up to the first that fails. */
  ghost function LoadSegments(s: Vm, root: nat, segments: seq<Segment>): Exec {
    if segments == [] then Exec(s, true)
    else
      var front := LoadSegments(s, root, segments[..|segments| - 1]);
      if !front.ok then front
      else
        var last := segments[|segments| - 1];
        var r := SetupPageMap(front.vm, root, 4, last.a, last.Pages());
        Exec(r.vm, r.ok)
  }

  /** Every segment that maps pages starts in the process's half. */
  predicate OwnHalf(segments: seq<Segment>) {
    forall k | 0 <= k < |segments| && segments[k].memsz > 0 :: segments[k].a.pml4 >= 256
  }

  // ---------------------------------------------------------------- addresses and page numbers

  const PML4_PAGES: nat := 512 * 512 * 512 * 512

  lemma ValueSplits(a: LinearAddress)
    requires a.Valid()
    ensures a.Value() == a.offset + 4096 * (PageNumber(a, 4) + PML4_PAGES * a.high)
    ensures PML4_PAGES / 512 * a.pml4 <= PageNumber(a, 4) < PML4_PAGES / 512 * (a.pml4 + 1)
  {
    FieldsOfNumber(a);
    hide PageNumber;
  }

  lemma FieldsOfNumber(a: LinearAddress)
    ensures PageNumber(a, 4) == a.page + 512 * (a.dir + 512 * (a.pdp + 512 * a.pml4))
  {
    assert Span(0) == 1 && Span(1) == 512 && Span(2) == 512 * 512 && Span(3) == 512 * 512 * 512;
    hide Span;
    assert PageNumber(a, 1) == a.page;
    assert PageNumber(a, 2) == a.dir * 512 + a.page;
    assert PageNumber(a, 3) == a.pdp * (512 * 512) + PageNumber(a, 2);
  }

  /** Byte k behind an address lies as many pages behind its page as the offset and k make up. */
  lemma BytePage(a: LinearAddress, k: nat)
    requires a.Valid() && a.Value() + k < ADDRESS_END && a.high == 0xffff
    ensures var b := Address(a.Value() + k);
            b.Valid() && b.pml4 >= a.pml4 && PageNumber(b, 4) == PageNumber(a, 4) + (a.offset + k) / 4096
  {
    hide PageNumber, LinearAddress.Value;
    var b := Address(a.Value() + k);
    AddressRoundTrip(a.Value() + k, a);
    ValueSplits(a);
    ValueSplits(b);
    var p, q := PageNumber(a, 4) + PML4_PAGES * a.high + (a.offset + k) / 4096, PageNumber(b, 4) + PML4_PAGES * b.high;
    DivisionIsUnique(p, (a.offset + k) % 4096, q, b.offset, 4096);
  }

  lemma UpperHalfIsOwn(a: LinearAddress)
    requires a.Valid() && UPPER_HALF <= a.Value()
    ensures a.high == 0xffff && a.pml4 >= 256
  {
    ValueSplits(a);
  }

  lemma {:induction false} SameNumberSamePage(b: LinearAddress, b': LinearAddress, level: nat)
    requires b.Valid() && b'.Valid() && level <= 4 && PageNumber(b, level) == PageNumber(b', level)
    ensures SamePage(b, b', level)
  {
    if level > 0 {
      PageNumberSplits(b, level);
      PageNumberSplits(b', level);
      DivisionIsUnique(b.Part(level), PageNumber(b, level - 1), b'.Part(level), PageNumber(b', level - 1),
                       Span(level - 1));
      SameNumberSamePage(b, b', level - 1);
    }
  }

  lemma {:induction false} SamePageSameWalk(m: map<nat, Table>, f: nat, level: nat, b: LinearAddress, b': LinearAddress)
    requires 1 <= level <= 4 && b.Valid() && b'.Valid() && SamePage(b, b', level)
    ensures Translate(m, f, level, b) == Translate(m, f, level, b')
    decreases level
  {
    if level > 1 {
      SamePageSameWalk(m, EntryAt(m, f, b.Part(level)).addr, level - 1, b, b');
    }
  }

  // ---------------------------------------------------------------- the bytes of one segment

  /** Byte k of the segment is mapped. */
  ghost predicate ByteMapped(m: map<nat, Table>, root: nat, seg: Segment, k: nat) {
    var b := Address(seg.a.Value() + k);
    b.Valid() && Translate(m, root, 4, b).Mapped?
  }

  ghost predicate CanLoad(s: Vm, root: nat) {
    Inv(s) && root in s.level && s.level[root] == 4
  }

  lemma ByteCanWalk(s: Vm, root: nat, seg: Segment, k: nat)
    requires CanLoad(s, root) && seg.InUpperHalf() && k < seg.memsz
    ensures CanSetup(s, root, 4, seg.a) && CanWalk(s, root, 4, Address(seg.a.Value() + k))
    ensures InRange(seg.a, Address(seg.a.Value() + k), 4, seg.Pages()) <==> (seg.a.offset + k) / 4096 < seg.Pages()
  {
    UpperHalfIsOwn(seg.a);
    BytePage(seg.a, k);
  }

  /** Mapping the pages of a segment reaches the bytes in its first Pages() pages, counted from its first page on. */
  lemma ByteIsMappedIff(s: Vm, root: nat, seg: Segment, k: nat)
    requires CanLoad(s, root) && seg.InUpperHalf() && k < seg.memsz
    requires SetupPageMap(s, root, 4, seg.a, seg.Pages()).ok
    ensures ByteMapped(SetupPageMap(s, root, 4, seg.a, seg.Pages()).vm.memory, root, seg, k)
       <==> (seg.a.offset + k) / 4096 < seg.Pages() || ByteMapped(s.memory, root, seg, k)
  {
    hide SetupPageMap, Translate, InRange;
    ByteCanWalk(s, root, seg, k);
    PageIsMappedIff(s, root, seg.a, seg.Pages(), Address(seg.a.Value() + k));
  }

  /** After a successful call, exactly the pages of its range and those mapped before are mapped. */
  lemma PageIsMappedIff(s: Vm, root: nat, a: ValidAddress, n: nat, b: LinearAddress)
    requires CanSetup(s, root, 4, a) && CanWalk(s, root, 4, b) && SetupPageMap(s, root, 4, a, n).ok
    ensures Translate(SetupPageMap(s, root, 4, a, n).vm.memory, root, 4, b).Mapped?
       <==> InRange(a, b, 4, n) || Translate(s.memory, root, 4, b).Mapped?
  {
    hide SetupPageMap, InRange;
    SetupMaps(s, root, 4, a, n, b);
    if Translate(s.memory, root, 4, b).Mapped? {
      SetupKeepsRest(s, root, 4, a, n);
      TranslateKept(s, SetupPageMap(s, root, 4, a, n).vm, root, 4, b);
    }
  }

  /**
   * The pages mapped for a segment hold all of its bytes if and only if its start leaves them enough room in the
   * first page, or the page of its last byte was mapped before.
   */
  lemma SegmentIsMappedIff(s: Vm, root: nat, seg: Segment)
    requires CanLoad(s, root) && seg.InUpperHalf() && seg.memsz > 0
    requires SetupPageMap(s, root, 4, seg.a, seg.Pages()).ok
    ensures (forall k: nat | k < seg.memsz ::
               ByteMapped(SetupPageMap(s, root, 4, seg.a, seg.Pages()).vm.memory, root, seg, k))
       <==> seg.a.offset + seg.memsz <= 4096 * seg.Pages() || ByteMapped(s.memory, root, seg, seg.memsz - 1)
  {
    hide SetupPageMap, ByteMapped;
    ByteIsMappedIff(s, root, seg, seg.memsz - 1);
    forall k: nat | k < seg.memsz
      ensures ByteMapped(SetupPageMap(s, root, 4, seg.a, seg.Pages()).vm.memory, root, seg, k)
         <==> (seg.a.offset + k) / 4096 < seg.Pages() || ByteMapped(s.memory, root, seg, seg.memsz - 1)
    {
      ByteIsMappedIff(s, root, seg, k);
      if (seg.a.offset + k) / 4096 >= seg.Pages() {
        LastPageIsOne(s.memory, root, seg, k);
      }
    }
  }

  lemma BehindMappedPages(offset: nat, memsz: nat, k: nat)
    requires offset < 4096 && k < memsz && (offset + k) / 4096 >= (memsz + 4095) / 4096
    ensures (offset + k) / 4096 == (offset + memsz - 1) / 4096
  {
  }

  /** The bytes behind the mapped pages all lie on the page of the last byte. */
  lemma LastPageIsOne(m: map<nat, Table>, root: nat, seg: Segment, k: nat)
    requires seg.InUpperHalf() && k < seg.memsz && (seg.a.offset + k) / 4096 >= seg.Pages()
    ensures ByteMapped(m, root, seg, k) <==> ByteMapped(m, root, seg, seg.memsz - 1)
  {
    hide Translate, PageNumber, Address;
    UpperHalfIsOwn(seg.a);
    BytePage(seg.a, k);
    BytePage(seg.a, seg.memsz - 1);
    BehindMappedPages(seg.a.offset, seg.memsz, k);
    var b, last := Address(seg.a.Value() + k), Address(seg.a.Value() + seg.memsz - 1);
    SameNumberSamePage(b, last, 4);
    SamePageSameWalk(m, root, 4, b, last);
  }

  /** One page of bytes that starts one byte behind a page's start: its last byte stays unmapped in an empty slot. */
  lemma LastByteIsLost(s: Vm, root: nat)
    requires CanLoad(s, root) && !EntryAt(s.memory, root, 256).present
    requires SetupPageMap(s, root, 4, LinearAddress(1, 0, 0, 0, 256, 0xffff), 1).ok
    ensures var seg := Segment(LinearAddress(1, 0, 0, 0, 256, 0xffff), 4096);
            seg.InUpperHalf() && seg.Pages() == 1 &&
            !ByteMapped(SetupPageMap(s, root, 4, seg.a, 1).vm.memory, root, seg, 4095)
  {
    hide SetupPageMap;
    var seg := Segment(LinearAddress(1, 0, 0, 0, 256, 0xffff), 4096);
    assert seg.a.Value() + 4095 == LinearAddress(0, 1, 0, 0, 256, 0xffff).Value();
    AddressRoundTrip(0, LinearAddress(0, 1, 0, 0, 256, 0xffff));
    ByteIsMappedIff(s, root, seg, 4095);
  }

  // ---------------------------------------------------------------- the pages of a whole program

  /** The page of b belongs to the pages mapped for one of the segments. */
  ghost predicate InSomeSegment(segments: seq<Segment>, b: LinearAddress) {
    exists k :: 0 <= k < |segments| && InRange(segments[k].a, b, 4, segments[k].Pages())
  }

  lemma LoadGrows(s: Vm, root: nat, segments: seq<Segment>)
    requires CanLoad(s, root) && OwnHalf(segments)
    ensures var s' := LoadSegments(s, root, segments).vm;
            CanLoad(s', root) && Grown(s, s', root, 4)
  {
    if segments == [] {
      GrownReflexive(s, root, 4);
    } else {
      var front, last := segments[..|segments| - 1], segments[|segments| - 1];
      LoadGrows(s, root, front);
      var mid := LoadSegments(s, root, front).vm;
      if last.memsz > 0 {
        hide LoadSegments, SetupPageMap;
        SetupGrows(mid, root, 4, last.a, last.Pages());
        GrownTransitive(s, mid, SetupPageMap(mid, root, 4, last.a, last.Pages()).vm, root, 4);
      }
    }
  }

  lemma AppendedSegment(front: seq<Segment>, last: Segment, b: LinearAddress)
    ensures InSomeSegment(front + [last], b) <==> InSomeSegment(front, b) || InRange(last.a, b, 4, last.Pages())
  {
    hide InRange;
    var all := front + [last];
    if InRange(last.a, b, 4, last.Pages()) {
      assert all[|front|] == last;
    }
    if InSomeSegment(front, b) {
      var k :| 0 <= k < |front| && InRange(front[k].a, b, 4, front[k].Pages());
      assert all[k] == front[k];
    }
  }

  /** Loading a program maps exactly the pages of its segments. */
  lemma {:induction false} LoadMapsExactly(s: Vm, root: nat, segments: seq<Segment>, b: LinearAddress)
    requires CanLoad(s, root) && OwnHalf(segments) && LoadSegments(s, root, segments).ok && CanWalk(s, root, 4, b)
    ensures Translate(LoadSegments(s, root, segments).vm.memory, root, 4, b).Mapped?
       <==> Translate(s.memory, root, 4, b).Mapped? || InSomeSegment(segments, b)
    decreases |segments|
  {
    hide Down;
    hide EntryAt, ForestGrows, Under, ZeroParts;
    if segments != [] {
      var front, last := segments[..|segments| - 1], segments[|segments| - 1];
      LoadMapsExactly(s, root, front, b);
      LoadGrows(s, root, front);
      assert segments == front + [last];
      AppendedSegment(front, last, b);
      hide InSomeSegment, Translate, SetupPageMap, Grown;
      var mid := LoadSegments(s, root, front).vm;
      if last.memsz > 0 {
        PageIsMappedIff(mid, root, last.a, last.Pages(), b);
      } else {
        NothingToMap(mid, root, last.a);
      }
    }
  }

  lemma NothingToMap(s: Vm, root: nat, a: ValidAddress)
    ensures SetupPageMap(s, root, 4, a, 0) == Setup(s, 0, true)
  {
  }

  // ---------------------------------------------------------------- the slots of a whole program

  const SLOT_PAGES: nat := 512 * 512 * 512

  /** The n pages from a on reach this slot; there is nothing behind the last slot. */
  predicate Reaches(a: LinearAddress, n: nat, slot: nat) {
    n > 0 && a.pml4 <= slot < ENTRIES && slot * SLOT_PAGES < PageNumber(a, 4) + n
  }

  lemma SlotArithmetic(i: nat, j: nat, v: nat, n: nat)
    requires v < SLOT_PAGES
    ensures var rest := n - Placed(n, SLOT_PAGES - v);
            rest >= 0 &&
            (n > 0 && i <= j && j * SLOT_PAGES < i * SLOT_PAGES + v + n <==>
              (n > 0 && j == i) || (rest > 0 && i + 1 <= j && j * SLOT_PAGES < (i + 1) * SLOT_PAGES + rest))
  {
  }

  /** The first slot is reached by any page, the others by what is left behind it. */
  lemma ReachesSplits(a: LinearAddress, n: nat, slot: nat)
    requires a.Valid() && slot < ENTRIES
    ensures var rest := n - Placed(n, Span(3) - PageNumber(a, 3));
            rest >= 0 &&
            (Reaches(a, n, slot) <==>
              (n > 0 && slot == a.pml4) || (a.pml4 < 511 && Reaches(NextEntry(a, 4), rest, slot)))
  {
    hide Placed;
    hide PageNumber, Span, ZeroParts;
    PageNumberSplits(a, 4);
    SlotPages();
    SlotArithmetic(a.pml4, slot, PageNumber(a, 3), n);
    if a.pml4 < 511 {
      NextPageNumber(a, 4);
    }
  }

  lemma SlotPages()
    ensures Span(3) == SLOT_PAGES
  {
    assert Span(1) == 512 && Span(2) == 512 * 512;
  }

  /** Filling an entry makes it present and leaves the others of its table alone. */
  lemma FilledSlots(s: Vm, root: nat, a: LinearAddress, n: nat, slot: nat)
    requires CanSetup(s, root, 4, a) && n > 0 && FillEntry(s, root, 4, a, n).ok && slot < ENTRIES
    ensures EntryAt(FillEntry(s, root, 4, a, n).vm.memory, root, slot).present
       <==> EntryAt(s.memory, root, slot).present || slot == a.pml4
  {
    hide FillEntry, Inv;
    FillGrowsInEntry(s, root, 4, a, n);
    FillMaps(s, root, 4, a, n, a);
  }

  /** After a successful call, exactly the slots its pages reach and those present before are present. */
  lemma {:induction false} SlotIsPresentIff(s: Vm, root: nat, a: LinearAddress, n: nat, slot: nat)
    requires CanSetup(s, root, 4, a) && SetupPageMap(s, root, 4, a, n).ok && slot < ENTRIES
    ensures EntryAt(SetupPageMap(s, root, 4, a, n).vm.memory, root, slot).present
       <==> EntryAt(s.memory, root, slot).present || Reaches(a, n, slot)
    decreases ENTRIES - a.pml4
  {
    hide SetupPageMap, FillEntry, Inv, Reaches;
    SetupUnfolds(s, root, 4, a, n);
    if n == 0 {
      NothingReached(a, slot);
    } else {
      ReachesSplits(a, n, slot);
      FillCounts(s, root, 4, a, n);
      var filled := FillEntry(s, root, 4, a, n);
      FilledSlots(s, root, a, n, slot);
      if a.pml4 < 511 {
        FillGrows(s, root, 4, a, n);
        GrownKeepsCanSetup(s, filled.vm, root, 4, a);
        SlotIsPresentIff(filled.vm, root, NextEntry(a, 4), filled.remaining, slot);
      }
    }
  }

  /** One of the segments has pages in this slot. */
  ghost predicate SomeReach(segments: seq<Segment>, slot: nat) {
    exists k :: 0 <= k < |segments| && segments[k].ReachesSlot(slot)
  }

  lemma AppendedReach(front: seq<Segment>, last: Segment, slot: nat)
    ensures SomeReach(front + [last], slot) <==> SomeReach(front, slot) || last.ReachesSlot(slot)
  {
    hide Reaches;
    var all := front + [last];
    if last.ReachesSlot(slot) {
      assert all[|front|] == last;
    }
    if SomeReach(front, slot) {
      var k :| 0 <= k < |front| && front[k].ReachesSlot(slot);
      assert all[k] == front[k];
    }
  }

  /** Loading a program makes exactly the slots present that its segments reach. */
  lemma {:induction false} LoadedSlots(s: Vm, root: nat, segments: seq<Segment>, slot: nat)
    requires CanLoad(s, root) && OwnHalf(segments) && LoadSegments(s, root, segments).ok && slot < ENTRIES
    ensures EntryAt(LoadSegments(s, root, segments).vm.memory, root, slot).present
       <==> EntryAt(s.memory, root, slot).present || SomeReach(segments, slot)
    decreases |segments|
  {
    hide Inv, PagesKept, Present;
    if segments != [] {
      var front, last := segments[..|segments| - 1], segments[|segments| - 1];
      LoadedSlots(s, root, front, slot);
      LoadGrows(s, root, front);
      assert segments == front + [last];
      AppendedReach(front, last, slot);
      hide SomeReach, SetupPageMap, Grown, Reaches;
      if last.memsz > 0 {
        SlotIsPresentIff(LoadSegments(s, root, front).vm, root, last.a, last.Pages(), slot);
      } else {
        NothingToMap(LoadSegments(s, root, front).vm, root, last.a);
        NothingReached(last.a, slot);
      }
    }
  }

  lemma NothingReached(a: LinearAddress, slot: nat)
    ensures !Reaches(a, 0, slot)
  {
  }

  // ---------------------------------------------------------------- the kernel's half

  /** Marked frames keep their level and their entries the user bit, and the kernel half is recorded as before. */
  ghost predicate UserKept(s: Vm, s': Vm) {
    && s'.kernel == s.kernel && s.used <= s'.used
    && (forall f | f in s.used && f in s.level :: f in s'.level && s'.level[f] == s.level[f])
    && forall f, i | f in s.used && 0 <= i < ENTRIES && IsUser(s, f, i) :: IsUser(s', f, i)
  }

  ghost predicate IsUser(s: Vm, f: nat, i: nat)
    requires i < ENTRIES
  {
    EntryAt(s.memory, f, i).present && EntryAt(s.memory, f, i).user
  }

  lemma EnterKeepsUser(s: Vm, pm: nat, level: nat, i: nat)
    requires i < ENTRIES
    ensures UserKept(s, Entered(s, pm, level, i).vm)
    ensures Entered(s, pm, level, i).ok ==> IsUser(Entered(s, pm, level, i).vm, pm, i)
  {
    var child := SetNewPageMapIfNotPresent(s, pm, level, i);
    if !EntryAt(s.memory, pm, i).present && child.ok {
      assert FreeRun(s.used, child.frame, 1);
      assert child.frame !in s.used;
    }
  }

  lemma {:induction false} FillKeepsUser(s: Vm, pm: nat, level: nat, a: LinearAddress, n: nat)
    requires 1 <= level <= 4 && a.Valid() && n > 0
    ensures UserKept(s, FillEntry(s, pm, level, a, n).vm)
    ensures FillEntry(s, pm, level, a, n).ok && pm in s.used ==>
              IsUser(FillEntry(s, pm, level, a, n).vm, pm, a.Part(level))
    decreases level, ENTRIES - a.Part(level), 0
  {
    hide Entered;
    var c := Entered(s, pm, level, a.Part(level));
    EnterKeepsUser(s, pm, level, a.Part(level));
    if c.ok && level > 1 {
      SetupKeepsUser(c.vm, c.frame, level - 1, a, n);
    }
  }

  lemma {:induction false} SetupKeepsUser(s: Vm, pm: nat, level: nat, a: LinearAddress, n: nat)
    requires 1 <= level <= 4 && a.Valid()
    ensures UserKept(s, SetupPageMap(s, pm, level, a, n).vm)
    ensures SetupPageMap(s, pm, level, a, n).ok && n > 0 && pm in s.used ==>
              IsUser(SetupPageMap(s, pm, level, a, n).vm, pm, a.Part(level))
    decreases level, ENTRIES - a.Part(level), 1
  {
    if n > 0 {
      hide FillEntry, IsUser;
      FillKeepsUser(s, pm, level, a, n);
      var filled := FillEntry(s, pm, level, a, n);
      if filled.ok && a.Part(level) < 511 {
        NextPageNumber(a, level);
        SetupKeepsUser(filled.vm, pm, level, NextEntry(a, level), filled.remaining);
      }
    }
  }

  lemma {:induction false} LoadKeepsUser(s: Vm, root: nat, segments: seq<Segment>, k: nat)
    requires LoadSegments(s, root, segments).ok && root in s.used
    ensures UserKept(s, LoadSegments(s, root, segments).vm)
    ensures k < |segments| && segments[k].memsz > 0 ==>
              IsUser(LoadSegments(s, root, segments).vm, root, segments[k].a.pml4)
    decreases |segments|
  {
    if segments != [] {
      var front, last := segments[..|segments| - 1], segments[|segments| - 1];
      LoadKeepsUser(s, root, front, k);
      var mid := LoadSegments(s, root, front).vm;
      hide SetupPageMap, IsUser;
      SetupKeepsUser(mid, root, 4, last.a, last.Pages());
    }
  }

  /**
   * The loader checks the address of the first segment only. A program that loads leaves the half of its PML4 that
   * it shares with the kernel as it is if and only if each of its segments that maps pages starts in the upper half.
   */
  lemma KernelHalfKeptIff(s: Vm, root: nat, segments: seq<Segment>)
    requires CanLoad(s, root) && (forall i | 0 <= i < 256 :: !s.kernel[i].user)
    requires LoadSegments(s, root, segments).ok
    ensures KernelHalf(LoadSegments(s, root, segments).vm) <==> OwnHalf(segments)
  {
    if OwnHalf(segments) {
      LoadGrows(s, root, segments);
    } else {
      var k :| 0 <= k < |segments| && segments[k].memsz > 0 && segments[k].a.pml4 < 256;
      LoadKeepsUser(s, root, segments, k);
      LowerEntryDiffers(s, LoadSegments(s, root, segments).vm, root, segments[k].a.pml4);
    }
  }

  lemma LowerEntryDiffers(s: Vm, s': Vm, root: nat, i: nat)
    requires CanLoad(s, root) && UserKept(s, s') && i < 256 && IsUser(s', root, i) && !s.kernel[i].user
    ensures !KernelHalf(s')
  {
    assert root in s.used && s'.level[root] == 4;
  }

  /** A first segment in the upper half lets a second one through that opens an entry of the kernel's half. */
  lemma LowerSegmentChangesKernelHalf(s: Vm, root: nat)
    requires CanLoad(s, root) && (forall i | 0 <= i < 256 :: !s.kernel[i].user)
    ensures var segments := [Segment(LinearAddress(0, 0, 0, 0, 256, 0xffff), 1),
                             Segment(LinearAddress(0, 0, 0, 0, 0, 0), 1)];
            && segments[0].a.Value() >= UPPER_HALF
            && (LoadSegments(s, root, segments).ok ==> !KernelHalf(LoadSegments(s, root, segments).vm))
  {
    hide LoadSegments, KernelHalf;
    var segments := [Segment(LinearAddress(0, 0, 0, 0, 256, 0xffff), 1), Segment(LinearAddress(0, 0, 0, 0, 0, 0), 1)];
    assert segments[1].memsz > 0 && segments[1].a.pml4 == 0;
    assert !OwnHalf(segments);
    if LoadSegments(s, root, segments).ok {
      KernelHalfKeptIff(s, root, segments);
    }
  }
}
