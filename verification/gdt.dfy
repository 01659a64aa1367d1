/** The global descriptor table: packing a segment's base, limit, access
    byte and flags into the 8-byte descriptor layout of section 3.4.5 of the
    Intel 64 and IA-32 Architectures Software Developer's Manual, Volume 3A,
    and the five flat segments the kernel installs.

    The table's address is whatever the linker chose; it is a parameter. */
module Gdt {
  import opened Hw

  const ENTRY_COUNT: nat := 5
  const ENTRY_SIZE: nat := 8
  /** `sizeof(gdt) - 1`. */
  const TABLE_LIMIT: uint16 := 39

  /** `gdt_entry_t`, field by field in memory order. */
  datatype Entry = Entry(limitLow: uint16, baseLow: uint16, baseMid: uint8,
                         access: uint8, granularity: uint8, baseHigh: uint8)

  /** `gdt_ptr_t`: the operand of `lgdt`. */
  datatype TablePointer = TablePointer(limit: uint16, base: uint32)

  // ---------------------------------------------------------------------
  // Reading a descriptor back
  // ---------------------------------------------------------------------

  /** The 32-bit segment base the CPU reassembles from the three base fields. */
  function Base(e: Entry): nat
  {
    e.baseLow + 0x1_0000 * e.baseMid + 0x100_0000 * e.baseHigh
  }

  /** The 20-bit limit: 16 bits in `limitLow`, 4 in the low nibble of
      `granularity`. */
  function Limit(e: Entry): nat
  {
    e.limitLow + 0x1_0000 * (e.granularity % 0x10)
  }

  /** The high nibble of `granularity`: G, D/B, L, AVL. */
  function Flags(e: Entry): nat
  {
    e.granularity / 0x10
  }

  /** G flag: the limit counts 4 KiB pages. */
  predicate PageGranular(e: Entry) { Flags(e) / 8 == 1 }

  /** D/B flag: 32-bit default operand size. */
  predicate Default32(e: Entry) { (Flags(e) / 4) % 2 == 1 }

  /** The last byte offset the segment covers. */
  function LastByte(e: Entry): nat
  {
    if PageGranular(e) then Limit(e) * 0x1000 + 0xFFF else Limit(e)
  }

  /** Access byte: P, DPL, S, E, RW, conforming and accessed bits. */
  predicate Present(access: uint8) { access >= 0x80 }
  function Dpl(access: uint8): nat { (access / 0x20) % 4 }
  predicate CodeOrData(access: uint8) { (access / 0x10) % 2 == 1 }
  predicate Executable(access: uint8) { (access / 8) % 2 == 1 }
  /** Readable for a code segment, writable for a data segment. */
  predicate ReadWrite(access: uint8) { (access / 2) % 2 == 1 }
  /** Set by the CPU on first use. */
  predicate Accessed(access: uint8) { access % 2 == 1 }
  /** Direction (data) or conforming (code) bit. */
  predicate Conforming(access: uint8) { (access / 4) % 2 == 1 }

  /** L flag: a 64-bit code segment. */
  predicate Long(e: Entry) { (Flags(e) / 2) % 2 == 1 }

  // ---------------------------------------------------------------------
  // Packing
  // ---------------------------------------------------------------------

  /** `gdt_set`: split base and limit over their fields. The flags byte is
      the limit's bits 16-19 ORed with the high nibble of `gran`; the two
      nibbles do not overlap, so the OR is a sum. */
  function Set(base: uint32, limit: uint32, access: uint8, gran: uint8): (e: Entry)
    ensures e.access == access
    ensures e.granularity % 0x10 == (limit / 0x1_0000) % 0x10
    ensures e.granularity / 0x10 == gran / 0x10
  {
    Entry(limit % 0x1_0000, base % 0x1_0000, (base / 0x1_0000) % 0x100, access,
          (limit / 0x1_0000) % 0x10 + (gran - gran % 0x10), (base / 0x100_0000) % 0x100)
  }

  /** What the CPU reads back from a packed descriptor is what `gdt_set` was
      given: the full base, the low 20 bits of the limit, the high nibble of
      `gran` and the access byte. */
  lemma SetReadsBack(base: uint32, limit: uint32, access: uint8, gran: uint8)
    ensures var e := Set(base, limit, access, gran);
            && Base(e) == base
            && Limit(e) == limit % 0x10_0000
            && Flags(e) == gran / 0x10
            && e.access == access
  {
    SplitBase(base);
    SplitLimit(limit, gran);
  }

  lemma SplitBase(base: uint32)
    ensures base % 0x1_0000 + 0x1_0000 * ((base / 0x1_0000) % 0x100)
            + 0x100_0000 * ((base / 0x100_0000) % 0x100) == base
  {
    var hi := base / 0x100_0000;
    var mid := (base / 0x1_0000) % 0x100;
    assert base / 0x1_0000 == hi * 0x100 + mid;
  }

  lemma SplitLimit(limit: uint32, gran: uint8)
    ensures var g := (limit / 0x1_0000) % 0x10 + (gran - gran % 0x10);
            g % 0x10 == (limit / 0x1_0000) % 0x10 && g / 0x10 == gran / 0x10
    ensures limit % 0x1_0000 + 0x1_0000 * ((limit / 0x1_0000) % 0x10) == limit % 0x10_0000
  {
    var q := limit / 0x10_0000;
    var r := limit % 0x10_0000;
    assert limit == q * 0x10_0000 + r;
    assert limit / 0x1_0000 == q * 0x10 + r / 0x1_0000;
    assert limit % 0x1_0000 == r % 0x1_0000;
  }

  // ---------------------------------------------------------------------
  // The installed table
  // ---------------------------------------------------------------------

  const FLAT_LIMIT: uint32 := 0xFFFF_FFFF
  /** 4 KiB granularity and 32-bit default operand size. */
  const FLAT_GRAN: uint8 := 0xCF

  const ACCESS_KERNEL_CODE: uint8 := 0x9A
  const ACCESS_KERNEL_DATA: uint8 := 0x92
  const ACCESS_USER_CODE: uint8 := 0xFA
  const ACCESS_USER_DATA: uint8 := 0xF2

  /** `gdt_set(i, 0, 0xFFFFFFFF, access, 0xCF)`. */
  function FlatSegment(access: uint8): Entry
  {
    Set(0, FLAT_LIMIT, access, FLAT_GRAN)
  }

  /** A flat segment starts at 0 and, with its limit counted in 4 KiB pages,
      covers the whole 4 GiB address space. */
  lemma FlatCovers(access: uint8)
    ensures Base(FlatSegment(access)) == 0
    ensures Limit(FlatSegment(access)) == 0xF_FFFF && PageGranular(FlatSegment(access))
    ensures LastByte(FlatSegment(access)) == FLAT_LIMIT
  {
  }

  /** The descriptor bytes of the five installed segments: limit fields all
      ones with flags 0xC, base 0, and the four access bytes. */
  const INSTALLED: seq<Entry> :=
    [Entry(0, 0, 0, 0, 0, 0),
     Entry(0xFFFF, 0, 0, ACCESS_KERNEL_CODE, FLAT_GRAN, 0), Entry(0xFFFF, 0, 0, ACCESS_KERNEL_DATA, FLAT_GRAN, 0),
     Entry(0xFFFF, 0, 0, ACCESS_USER_CODE, FLAT_GRAN, 0), Entry(0xFFFF, 0, 0, ACCESS_USER_DATA, FLAT_GRAN, 0)]

  /** `gdt_init`: the null descriptor, then kernel code, kernel data, user
      code and user data, each flat. The pointer's limit is the table size
      minus one. */
  function Init(tableAddress: uint32): (r: (seq<Entry>, TablePointer))
    ensures r.1 == TablePointer(TABLE_LIMIT, tableAddress) && TABLE_LIMIT == ENTRY_COUNT * ENTRY_SIZE - 1
    ensures r.0 == INSTALLED
  {
    ([Set(0, 0, 0x00, 0x00), FlatSegment(ACCESS_KERNEL_CODE), FlatSegment(ACCESS_KERNEL_DATA),
      FlatSegment(ACCESS_USER_CODE), FlatSegment(ACCESS_USER_DATA)],
     TablePointer(TABLE_LIMIT, tableAddress))
  }

  /** Every installed descriptor but the null one is a flat 4 GiB segment. */
  lemma InstalledFlat(i: nat)
    requires 1 <= i < |INSTALLED|
    ensures var e := INSTALLED[i];
            Base(e) == 0 && Limit(e) == 0xF_FFFF && e.granularity == FLAT_GRAN
            && LastByte(e) == FLAT_LIMIT
  {
    FlatEntry(INSTALLED[i].access);
  }

  lemma FlatEntry(access: uint8)
    ensures var e := Entry(0xFFFF, 0, 0, access, FLAT_GRAN, 0);
            Base(e) == 0 && Limit(e) == 0xF_FFFF && LastByte(e) == FLAT_LIMIT
  {
  }

  /** A segment selector: table index times 8 plus the requested privilege
      level (the table-indicator bit is 0 for the GDT). */
  function Selector(index: nat, rpl: nat): nat
    requires rpl < 4
  {
    index * ENTRY_SIZE + rpl
  }

  /** The roles of the four real descriptors: all present, 32-bit and
      page-granular, never marked accessed, conforming or 64-bit; entries 1
      and 3 executable and readable, 2 and 4 writable data; ring 0 for 1 and
      2, ring 3 for 3 and 4. */
  lemma SegmentRoles(i: nat)
    requires 1 <= i < |INSTALLED|
    ensures var e := INSTALLED[i];
            && Present(e.access) && CodeOrData(e.access) && ReadWrite(e.access)
            && !Accessed(e.access) && !Conforming(e.access)
            && PageGranular(e) && Default32(e) && !Long(e)
            && (Executable(e.access) <==> i % 2 == 1)
            && Dpl(e.access) == (if i <= 2 then 0 else 3)
  {
  }

  /** Selector 0x08, used by every interrupt gate, names the ring-0 code segment. */
  lemma KernelCodeSelector()
    ensures Selector(1, 0) == 0x08
    ensures var e := INSTALLED[0x08 / ENTRY_SIZE];
            Executable(e.access) && Dpl(e.access) == 0 && Present(e.access)
  {
    SegmentRoles(1);
  }
}
