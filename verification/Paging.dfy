/** Linear addresses and page-map entries of kernel/paging.hpp (4-level paging). */
module Paging {
  import opened Division

  const ENTRIES: nat := 512
  const PAGE_BYTES: nat := 4096

  /** The bit-fields of a 64-bit linear address, lowest first. */
  datatype LinearAddress = LinearAddress(offset: nat, page: nat, dir: nat, pdp: nat, pml4: nat, high: nat) {

    predicate Valid() {
      offset < PAGE_BYTES && page < ENTRIES && dir < ENTRIES && pdp < ENTRIES && pml4 < ENTRIES && high < 0x1_0000
    }

    function Part(level: nat): nat {
      match level
      case 0 => offset
      case 1 => page
      case 2 => dir
      case 3 => pdp
      case 4 => pml4
      case _ => 0
    }

    /** Assigning to a bit-field keeps the low bits of the value. */
    function SetPart(level: nat, value: nat): LinearAddress {
      match level
      case 0 => this.(offset := value % PAGE_BYTES)
      case 1 => this.(page := value % ENTRIES)
      case 2 => this.(dir := value % ENTRIES)
      case 3 => this.(pdp := value % ENTRIES)
      case 4 => this.(pml4 := value % ENTRIES)
      case _ => this
    }

    /** The 64-bit value the fields overlay. */
    function Value(): nat {
      offset + PAGE_BYTES * (page + ENTRIES * (dir + ENTRIES * (pdp + ENTRIES * (pml4 + ENTRIES * high))))
    }
  }

  type ValidAddress = a: LinearAddress | a.Valid() witness LinearAddress(0, 0, 0, 0, 0, 0)

  function Address(value: nat): LinearAddress {
    var p1 := value / PAGE_BYTES;
    var p2 := p1 / ENTRIES;
    var p3 := p2 / ENTRIES;
    var p4 := p3 / ENTRIES;
    LinearAddress(value % PAGE_BYTES, p1 % ENTRIES, p2 % ENTRIES, p3 % ENTRIES, p4 % ENTRIES, p4 / ENTRIES)
  }

  /** Reading the fields of a 64-bit value loses nothing, and every field combination is one value. */
  lemma AddressRoundTrip(value: nat, a: LinearAddress)
    requires value < 0x1_0000_0000_0000_0000 && a.Valid()
    ensures Address(value).Valid() && Address(value).Value() == value
    ensures Address(a.Value()) == a && a.Value() < 0x1_0000_0000_0000_0000
  {
    var p4 := a.pml4 + ENTRIES * a.high;
    var p3 := a.pdp + ENTRIES * p4;
    var p2 := a.dir + ENTRIES * p3;
    var p1 := a.page + ENTRIES * p2;
    assert a.Value() / PAGE_BYTES == p1;
    assert p1 / ENTRIES == p2;
    assert p2 / ENTRIES == p3;
    assert p3 / ENTRIES == p4;
  }

  /** Pages below one table entry of a level: 512 to the power of that level. */
  function Span(level: nat): (pages: nat)
    ensures pages > 0
  {
    if level == 0 then 1 else ENTRIES * Span(level - 1)
  }

  /** The page an address selects below a table of the given level. */
  function PageNumber(a: LinearAddress, level: nat): nat {
    if level == 0 then 0 else a.Part(level) * Span(level - 1) + PageNumber(a, level - 1)
  }

  /** The parts below a level, zeroed one after the other. */
  function ZeroParts(a: LinearAddress, level: nat): LinearAddress
    decreases level
  {
    if level == 0 then a else ZeroParts(a.SetPart(level, 0), level - 1)
  }

  lemma {:induction false} PageNumberBound(a: LinearAddress, level: nat)
    requires a.Valid() && level <= 4
    ensures PageNumber(a, level) < Span(level)
  {
    if level > 0 {
      PageNumberBound(a, level - 1);
      assert a.Part(level) <= 511;
      MulLe(a.Part(level), 511, Span(level - 1));
    }
  }

  /** Moving to the next entry of a level and zeroing the parts below selects its first page. */
  lemma {:induction false} NextPageNumber(a: LinearAddress, level: nat)
    requires a.Valid() && 1 <= level <= 4 && a.Part(level) < 511
    ensures var next := ZeroParts(a.SetPart(level, a.Part(level) + 1), level - 1);
            && next.Valid() && next.Part(level) == a.Part(level) + 1
            && PageNumber(next, level) == (a.Part(level) + 1) * Span(level - 1)
  {
    ZeroedParts(a.SetPart(level, a.Part(level) + 1), level - 1);
  }

  lemma {:induction false} ZeroedParts(a: LinearAddress, level: nat)
    requires a.Valid() && level <= 4
    ensures var z := ZeroParts(a, level);
            && z.Valid() && PageNumber(z, level) == 0
            && forall l | level < l <= 4 :: z.Part(l) == a.Part(l)
    decreases level
  {
    if level > 0 {
      ZeroedParts(a.SetPart(level, 0), level - 1);
    }
  }

  /** A page-map entry; the two reserved fields keep their contents. */
  datatype PageMapEntry = PageMapEntry(
    present: bool, writable: bool, user: bool, writeThrough: bool, cacheDisable: bool, accessed: bool,
    dirty: bool, hugePage: bool, global: bool, reserved3: nat, addr: nat, reserved12: nat)
  {
    predicate Valid() {
      reserved3 < 8 && addr < 0x100_0000_0000 && reserved12 < PAGE_BYTES
    }

    /** Physical address the entry points to. */
    function Pointer(): nat {
      addr * PAGE_BYTES
    }

    function SetPointer(p: nat): PageMapEntry {
      this.(addr := p / PAGE_BYTES % 0x100_0000_0000)
    }

    /** The 64-bit data word the fields overlay, lowest field first. */
    function Data(): nat {
      Cons(present, Cons(writable, Cons(user, Cons(writeThrough, Cons(cacheDisable, Cons(accessed,
      Cons(dirty, Cons(hugePage, Cons(global, High(reserved3, addr, reserved12))))))))))
    }
  }

  /** A bit in front of the remaining, higher bits. */
  function Cons(bit: bool, rest: nat): (word: nat)
    ensures word / 2 == rest && word % 2 == if bit then 1 else 0
  {
    2 * rest + if bit then 1 else 0
  }

  function High(reserved3: nat, addr: nat, reserved12: nat): nat {
    reserved3 + 8 * (addr + 0x100_0000_0000 * reserved12)
  }

  function Odd(n: nat): bool {
    n % 2 == 1
  }

  function Entry(data: nat): PageMapEntry {
    var d1 := data / 2;
    var d2 := d1 / 2;
    var d3 := d2 / 2;
    var d4 := d3 / 2;
    var d5 := d4 / 2;
    var d6 := d5 / 2;
    var d7 := d6 / 2;
    var d8 := d7 / 2;
    var d9 := d8 / 2;
    PageMapEntry(Odd(data), Odd(d1), Odd(d2), Odd(d3), Odd(d4), Odd(d5), Odd(d6), Odd(d7), Odd(d8),
                 d9 % 8, d9 / 8 % 0x100_0000_0000, d9 / 8 / 0x100_0000_0000)
  }

  const NO_ENTRY: PageMapEntry :=
    PageMapEntry(false, false, false, false, false, false, false, false, false, 0, 0, 0)

  lemma HighFields(reserved3: nat, addr: nat, reserved12: nat)
    requires reserved3 < 8 && addr < 0x100_0000_0000
    ensures var h := High(reserved3, addr, reserved12);
            h % 8 == reserved3 && h / 8 % 0x100_0000_0000 == addr && h / 8 / 0x100_0000_0000 == reserved12
  {
    assert High(reserved3, addr, reserved12) / 8 == addr + 0x100_0000_0000 * reserved12;
  }

  /** An entry pointed at a frame has that frame's number in its address field. */
  lemma PointerOfFrame(e: PageMapEntry, frame: nat)
    requires frame < 0x100_0000_0000
    ensures e.SetPointer(frame * PAGE_BYTES) == e.(addr := frame)
    ensures e.SetPointer(frame * PAGE_BYTES).Pointer() == frame * PAGE_BYTES
  {
  }

  /** The fields of an entry are what its 64-bit data word decodes to. */
  lemma EntryRoundTrip(e: PageMapEntry)
    requires e.Valid()
    ensures Entry(e.Data()) == e
  {
    HighFields(e.reserved3, e.addr, e.reserved12);
  }
}
