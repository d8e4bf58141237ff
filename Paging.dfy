/** The bit fields of 4-level (IA-32e) paging as `ptwalk` reads them: how a
    virtual address splits into four table indices and a page offset, what
    the present and page-size bits of an entry are, and how table, entry and
    physical addresses are put together from masks, shifts and additions.

    Every value is a natural number below 2^64, held as a `bv64`. On that
    range `&` and `>>` agree with the same operators on unbounded integers,
    and each addition below is shown not to wrap (its result is at least its
    left operand), so it agrees with unbounded addition too. */
module Paging {

  type Word = bv64

  /** The four translation levels, outermost first. */
  datatype Level = PML4 | PDPT | PD | PT
  {
    /** How many levels lie above this one. */
    function Depth(): (d: nat)
      ensures d < 4 && LevelAt(d) == this
    {
      match this
      case PML4 => 0
      case PDPT => 1
      case PD => 2
      case PT => 3
    }
  }

  /** The level read at depth `d` of a walk (0 for the PML4). */
  function LevelAt(d: nat): Level
    requires d < 4
  {
    if d == 0 then PML4 else if d == 1 then PDPT else if d == 2 then PD else PT
  }

  datatype PageSize = Size4K | Size2M | Size1G

  /** Bits 47:12: a table base or a 4 KiB frame. */
  const TableMask: Word := 0xFFFFFFFFF000
  /** Bits 47:21: a 2 MiB frame. */
  const Frame2MMask: Word := 0xFFFFFFE00000
  /** Bits 51:30: a 1 GiB frame. */
  const Frame1GMask: Word := 0xFFFFFC0000000

  const Offset4KMask: Word := 0xFFF
  const Offset2MMask: Word := 0x1FFFFF
  const Offset1GMask: Word := 0x3FFFFFFF

  /** The 48 bits of a virtual address that 4-level paging translates. */
  const Low48: Word := 0xFFFF_FFFF_FFFF

  /** The table indices and page offset of a virtual address. */
  datatype Indices = Indices(pml4: Word, pdpt: Word, pd: Word, pt: Word, offset: Word)
  {
    predicate Valid()
    {
      pml4 < 512 && pdpt < 512 && pd < 512 && pt < 512 && offset < 4096
    }
  }

  /** Split a virtual address: bits 47:39, 38:30, 29:21, 20:12 and 11:0.
      Each index fits in 9 bits and the offset in 12, and putting them back
      together gives the low 48 bits of the address. */
  function Decode(vaddr: Word): (ix: Indices)
    ensures ix.Valid()
    ensures Reassemble(ix) == vaddr & Low48
  {
    Indices((vaddr >> 39) & 0x1FF, (vaddr >> 30) & 0x1FF, (vaddr >> 21) & 0x1FF,
            (vaddr >> 12) & 0x1FF, vaddr & 0xFFF)
  }

  /** The virtual address (below 2^48) with the given indices and offset. */
  function Reassemble(ix: Indices): (v: Word)
    requires ix.Valid()
    ensures v <= Low48
  {
    (ix.pml4 << 39) | (ix.pdpt << 30) | (ix.pd << 21) | (ix.pt << 12) | ix.offset
  }

  /** Decoding recovers every field that was reassembled. */
  lemma DecodeReassemble(ix: Indices)
    requires ix.Valid()
    ensures Decode(Reassemble(ix)) == ix
  {
  }

  /** Bit 0 of an entry: the entry maps something. */
  predicate Present(entry: Word)
  {
    (entry & 0x1) != 0
  }

  /** Bit 7 of an entry: at the PDPT and PD levels, the entry maps a page. */
  predicate PageSizeBit(entry: Word)
  {
    (entry & (1 << 7)) != 0
  }

  /** The base of the table (or 4 KiB frame) an entry points to: bits 47:12
      of the entry, with every other bit clear. */
  function TableBase(entry: Word): (base: Word)
    ensures (base & 0xFFF) == 0 && base <= Low48
    ensures base >> 12 == (entry >> 12) & 0xF_FFFF_FFFF
  {
    entry & TableMask
  }

  /** Adding two words with no bit in common never carries: the sum is
      their bitwise or, and so it does not wrap either. */
  lemma DisjointAdd(a: Word, b: Word)
    requires (a & b) == 0
    ensures a + b == a | b
  {
  }

  /** The address of slot `index` in the table at `base`, each entry being 8
      bytes. Since the base has its low 12 bits clear and the slot offset fits
      in them, the addition never carries. */
  function EntryAddress(base: Word, index: Word): (addr: Word)
    requires (base & 0xFFF) == 0 && index < 512
    ensures addr == base | (index << 3)
  {
    DisjointAdd(base, index * 8);
    base + index * 8
  }

  /** An entry address is 8-byte aligned, lies in the 4 KiB table that starts
      at `base`, and is slot `index` of it. */
  lemma EntryAddressInTable(base: Word, index: Word)
    requires (base & 0xFFF) == 0 && index < 512
    ensures (EntryAddress(base, index) & 0x7) == 0
    ensures (EntryAddress(base, index) & !0xFFF) == base
    ensures (EntryAddress(base, index) & 0xFFF) >> 3 == index
  {
  }

  /** A 1 GiB page: the frame (bits 51:30 of the entry) plus the low 30 bits
      of the virtual address, an addition that never carries. */
  function PhysAddress1G(entry: Word, vaddr: Word): (phys: Word)
    ensures phys == (entry & Frame1GMask) | (vaddr & Offset1GMask)
  {
    (entry & Frame1GMask) + (vaddr & Offset1GMask)
  }

  /** A 2 MiB page: the frame (bits 47:21 of the entry) plus the low 21 bits
      of the virtual address, an addition that never carries. */
  function PhysAddress2M(entry: Word, vaddr: Word): (phys: Word)
    ensures phys == (entry & Frame2MMask) | (vaddr & Offset2MMask)
  {
    (entry & Frame2MMask) + (vaddr & Offset2MMask)
  }

  /** A 4 KiB page: the frame (bits 47:12 of the entry) plus the page offset,
      an addition that never carries. */
  function PhysAddress4K(entry: Word, pageOffset: Word): (phys: Word)
    requires pageOffset < 4096
    ensures phys == TableBase(entry) | pageOffset
  {
    TableBase(entry) + pageOffset
  }

  /** A 1 GiB page keeps the low 30 bits of the virtual address, and its
      bits above them are bits 51:30 of the entry. */
  lemma PhysAddress1GBits(entry: Word, vaddr: Word)
    ensures (PhysAddress1G(entry, vaddr) & Offset1GMask) == (vaddr & Offset1GMask)
    ensures PhysAddress1G(entry, vaddr) >> 30 == (entry >> 30) & 0x3F_FFFF
  {
  }

  /** A 2 MiB page keeps the low 21 bits of the virtual address, and its
      bits above them are bits 47:21 of the entry. */
  lemma PhysAddress2MBits(entry: Word, vaddr: Word)
    ensures (PhysAddress2M(entry, vaddr) & Offset2MMask) == (vaddr & Offset2MMask)
    ensures PhysAddress2M(entry, vaddr) >> 21 == (entry >> 21) & 0x7FF_FFFF
  {
  }

  /** A 4 KiB page keeps the page offset, and its bits above it are bits
      47:12 of the entry. */
  lemma PhysAddress4KBits(entry: Word, pageOffset: Word)
    requires pageOffset < 4096
    ensures (PhysAddress4K(entry, pageOffset) & Offset4KMask) == pageOffset
    ensures PhysAddress4K(entry, pageOffset) >> 12 == (entry >> 12) & 0xF_FFFF_FFFF
  {
  }
}
