/** The boot page tables of kernel/paging.cpp: the first 64 GiB mapped to themselves in 2 MiB pages. */
module IdentityPaging {
  import opened Words
  import opened Paging

  const PAGE_DIRECTORY_COUNT: nat := 64
  const PAGE_SIZE_2M: nat := 0x20_0000
  const PAGE_SIZE_1G: nat := 0x4000_0000
  const WORD_BITS: nat := 64

  /** Table pointers are stored with `| 0x003`, pages with `| 0x083`. */
  const TABLE_FLAGS: nat := 0x003
  const PAGE_FLAGS: nat := 0x083

  /** Or-ing flags into a number whose low bits are clear adds them: no address bit is touched. */
  lemma {:induction false} OrIntoClearBits(n: nat, k: nat, high: nat, flags: nat)
    requires flags < Pow2(k) && Pow2(k) * high + flags < Pow2(n)
    requires Pow2(k) * high < Pow2(n) && flags < Pow2(n)
    ensures Or(n, Pow2(k) * high, flags) == Pow2(k) * high + flags
    decreases k
  {
    if k == 0 {
      OrZero(n, high);
    } else if n > 0 {
      var rest := Pow2(k - 1) * high;
      assert Pow2(k) * high == 2 * rest;
      OrIntoClearBits(n - 1, k - 1, high, flags / 2);
    }
  }

  lemma {:induction false} OrZero(n: nat, a: nat)
    requires a < Pow2(n)
    ensures Or(n, a, 0) == a
  {
    if n > 0 {
      OrZero(n - 1, a / 2);
    }
  }

  lemma Pow2Of4()
    ensures Pow2(4) == 16
  {
  }

  lemma PowersOfTwo()
    ensures Pow2(12) == PAGE_BYTES && Pow2(64) == 0x1_0000_0000_0000_0000
  {
    hide Pow2;
    Pow2Of4();
    Pow2Sum(4, 4);
    Pow2Sum(4, 8);
    Pow2Sum(8, 8);
    Pow2Sum(16, 16);
    Pow2Sum(32, 32);
  }

  function TableEntry(frame: nat): PageMapEntry {
    NO_ENTRY.(present := true, writable := true, addr := frame)
  }

  function PageEntry(frame: nat): PageMapEntry {
    NO_ENTRY.(present := true, writable := true, hugePage := true, addr := frame)
  }

  predicate Frame(frame: nat) {
    frame < 0x100_0000_0000
  }

  /** address | flags as the code computes it on 64-bit words. */
  function Word(frame: nat, flags: nat): (w: nat)
    requires Frame(frame) && flags < PAGE_BYTES
    ensures w == frame * PAGE_BYTES + flags
  {
    PowersOfTwo();
    OrIntoClearBits(WORD_BITS, 12, frame, flags);
    Or(WORD_BITS, frame * PAGE_BYTES, flags)
  }

  /** The words written decode to the intended entries. */
  lemma WordsDecode(frame: nat)
    requires Frame(frame)
    ensures Entry(Word(frame, TABLE_FLAGS)) == TableEntry(frame)
    ensures Entry(Word(frame, PAGE_FLAGS)) == PageEntry(frame)
  {
    assert TableEntry(frame).Data() == Word(frame, TABLE_FLAGS);
    EntryRoundTrip(TableEntry(frame));
    assert PageEntry(frame).Data() == Word(frame, PAGE_FLAGS);
    EntryRoundTrip(PageEntry(frame));
  }

  /** First frame of the 2 MiB page for directory i and entry j. */
  function HugeFrame(i: nat, j: nat): nat {
    i * (ENTRIES * ENTRIES) + j * ENTRIES
  }

  datatype Physical = NotMapped | Physical(address: nat)

  class BootTables {
    const pml4Table: array<nat>
    const pdpTable: array<nat>
    const pageDirectory: array2<nat>
    // frame numbers of the three page-aligned tables; directory i occupies frame directoryFrame + i
    const pdpFrame: nat
    const directoryFrame: nat

    ghost predicate Valid() {
      && pml4Table.Length == ENTRIES && pdpTable.Length == ENTRIES
      && pageDirectory.Length0 == PAGE_DIRECTORY_COUNT && pageDirectory.Length1 == ENTRIES
      && Frame(pdpFrame) && Frame(directoryFrame + PAGE_DIRECTORY_COUNT)
      && pml4Table != pdpTable
    }

    /** Statically allocated tables start out zeroed. */
    ghost predicate Zeroed()
      reads pml4Table, pdpTable
      requires Valid()
    {
      forall i | 0 <= i < ENTRIES :: pml4Table[i] == 0 && pdpTable[i] == 0
    }

    constructor (pdpFrame: nat, directoryFrame: nat)
      requires Frame(pdpFrame) && Frame(directoryFrame + PAGE_DIRECTORY_COUNT)
      ensures Valid() && Zeroed() && this.pdpFrame == pdpFrame && this.directoryFrame == directoryFrame
      ensures fresh(pml4Table) && fresh(pdpTable) && fresh(pageDirectory)
    {
      this.pdpFrame, this.directoryFrame := pdpFrame, directoryFrame;
      pml4Table := new nat[ENTRIES](_ => 0);
      pdpTable := new nat[ENTRIES](_ => 0);
      pageDirectory := new nat[PAGE_DIRECTORY_COUNT, ENTRIES]((_, _) => 0);
    }

    ghost predicate DirectoryFilled(i: nat, count: nat)
      reads pageDirectory
      requires Valid() && i < PAGE_DIRECTORY_COUNT && count <= ENTRIES
    {
      forall j | 0 <= j < count :: pageDirectory[i, j] == Word(HugeFrame(i, j), PAGE_FLAGS)
    }

    ghost predicate Identity()
      reads pml4Table, pdpTable, pageDirectory
      requires Valid()
    {
      && pml4Table[0] == Word(pdpFrame, TABLE_FLAGS)
      && (forall i | 0 < i < ENTRIES :: pml4Table[i] == 0)
      && (forall i | 0 <= i < PAGE_DIRECTORY_COUNT ::
            pdpTable[i] == Word(directoryFrame + i, TABLE_FLAGS) && DirectoryFilled(i, ENTRIES))
      && (forall i | PAGE_DIRECTORY_COUNT <= i < ENTRIES :: pdpTable[i] == 0)
    }

    method SetupIdentityPageTable()
      requires Valid() && Zeroed()
      modifies pml4Table, pdpTable, pageDirectory
      ensures Identity()
    {
      hide Pow2, Word, Or, HugeFrame;
      pml4Table[0] := Word(pdpFrame, TABLE_FLAGS);
      for i := 0 to PAGE_DIRECTORY_COUNT
        invariant pml4Table[0] == Word(pdpFrame, TABLE_FLAGS)
        invariant forall k | 0 < k < ENTRIES :: pml4Table[k] == 0
        invariant forall k | 0 <= k < i ::
          pdpTable[k] == Word(directoryFrame + k, TABLE_FLAGS) && DirectoryFilled(k, ENTRIES)
        invariant forall k | i <= k < ENTRIES :: pdpTable[k] == 0
      {
        pdpTable[i] := Word(directoryFrame + i, TABLE_FLAGS);
        for j := 0 to ENTRIES
          invariant pml4Table[0] == Word(pdpFrame, TABLE_FLAGS)
          invariant forall k | 0 < k < ENTRIES :: pml4Table[k] == 0
          invariant forall k | 0 <= k < i ::
            pdpTable[k] == Word(directoryFrame + k, TABLE_FLAGS) && DirectoryFilled(k, ENTRIES)
          invariant pdpTable[i] == Word(directoryFrame + i, TABLE_FLAGS) && DirectoryFilled(i, j)
          invariant forall k | i < k < ENTRIES :: pdpTable[k] == 0
        {
          pageDirectory[i, j] := Or(WORD_BITS, HugeAddress(i, j), PAGE_FLAGS);
        }
      }
    }

    /** The processor's walk from the boot PML4: two table entries and a 2 MiB page entry. */
    function Walk(b: LinearAddress): Physical
      reads pml4Table, pdpTable, pageDirectory
      requires Valid() && b.Valid()
    {
      var e4 := Entry(pml4Table[b.pml4]);
      if !e4.present || e4.addr != pdpFrame then NotMapped
      else
        var e3 := Entry(pdpTable[b.pdp]);
        if !e3.present || !(directoryFrame <= e3.addr < directoryFrame + PAGE_DIRECTORY_COUNT) then NotMapped
        else
          var e2 := Entry(pageDirectory[e3.addr - directoryFrame, b.dir]);
          if !e2.present || !e2.hugePage then NotMapped
          else Physical(e2.Pointer() + b.page * PAGE_BYTES + b.offset)
    }
  }

  /** i_pdpt * kPageSize1G + i_pd * kPageSize2M */
  function HugeAddress(i: nat, j: nat): (address: nat)
    requires i < PAGE_DIRECTORY_COUNT && j < ENTRIES
    ensures address == HugeFrame(i, j) * PAGE_BYTES && Frame(HugeFrame(i, j))
    ensures address < Pow2(WORD_BITS) && PAGE_FLAGS < Pow2(WORD_BITS)
    ensures Or(WORD_BITS, address, PAGE_FLAGS) == Word(HugeFrame(i, j), PAGE_FLAGS)
  {
    PowersOfTwo();
    i * PAGE_SIZE_1G + j * PAGE_SIZE_2M
  }

  /** The 48 translated bits of an address. */
  function Low48(b: LinearAddress): nat {
    b.offset + PAGE_BYTES * (b.page + ENTRIES * (b.dir + ENTRIES * (b.pdp + ENTRIES * b.pml4)))
  }

  const MAPPED_BYTES: nat := PAGE_DIRECTORY_COUNT * PAGE_SIZE_1G

  lemma BelowLimit(b: LinearAddress)
    requires b.Valid()
    ensures Low48(b) < MAPPED_BYTES <==> b.pml4 == 0 && b.pdp < PAGE_DIRECTORY_COUNT
  {
  }

  /** Below 64 GiB every address is mapped to itself; every other address is unmapped. */
  lemma IdentityMapped(t: BootTables, b: LinearAddress)
    requires t.Valid() && t.Identity() && b.Valid()
    ensures t.Walk(b) == if Low48(b) < MAPPED_BYTES then Physical(Low48(b)) else NotMapped
  {
    hide Entry, Word, BootTables.Identity;
    BelowLimit(b);
    UpperEntry(t, b);
    MiddleEntry(t, b);
    if b.pml4 == 0 && b.pdp < PAGE_DIRECTORY_COUNT {
      PageWords(t, b.pdp, b.dir);
    }
  }

  /** The entries a walk of b reads in the two upper tables. */
  lemma UpperEntry(t: BootTables, b: LinearAddress)
    requires t.Valid() && t.Identity() && b.Valid()
    ensures if b.pml4 == 0 then Entry(t.pml4Table[b.pml4]) == TableEntry(t.pdpFrame)
            else !Entry(t.pml4Table[b.pml4]).present
  {
    WordsDecode(t.pdpFrame);
    ZeroDecodes();
    hide Entry, Word, TableEntry;
  }

  lemma MiddleEntry(t: BootTables, b: LinearAddress)
    requires t.Valid() && t.Identity() && b.Valid()
    ensures if b.pdp < PAGE_DIRECTORY_COUNT then Entry(t.pdpTable[b.pdp]) == TableEntry(t.directoryFrame + b.pdp)
            else !Entry(t.pdpTable[b.pdp]).present
  {
    ZeroDecodes();
    hide Entry, Word, TableEntry;
    if b.pdp < PAGE_DIRECTORY_COUNT {
      WordsDecode(t.directoryFrame + b.pdp);
    }
  }

  lemma ZeroDecodes()
    ensures !Entry(0).present
  {
  }

  lemma PageWords(t: BootTables, i: nat, j: nat)
    requires t.Valid() && t.Identity() && i < PAGE_DIRECTORY_COUNT && j < ENTRIES
    ensures Entry(t.pageDirectory[i, j]) == PageEntry(HugeFrame(i, j))
  {
    assert t.DirectoryFilled(i, ENTRIES);
    WordsDecode(HugeFrame(i, j));
  }
}
