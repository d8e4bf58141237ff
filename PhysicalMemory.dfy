/** Physical memory as the debugger exposes it: some 64-bit physical
    addresses can be read and hold a byte, the others cannot. Reading a
    page-table entry reads the eight bytes starting at its address, all or
    nothing, and decodes them little-endian. */
module PhysicalMemory {
  import opened LittleEndian
  import opened Paging

  datatype Option<T> = None | Some(value: T)

  /** The readable bytes of physical memory, by address. */
  type Memory = map<Word, Byte>

  /** The highest address whose eight bytes all lie below 2^64. */
  const LastSlot: Word := 0xFFFF_FFFF_FFFF_FFF8

  /** The addresses of the eight bytes starting at `addr`, in order. */
  function SlotAddresses(addr: Word): (s: seq<Word>)
    requires addr <= LastSlot
    ensures |s| == 8
  {
    [addr, addr + 1, addr + 2, addr + 3, addr + 4, addr + 5, addr + 6, addr + 7]
  }

  /** All eight bytes starting at `addr` exist and are readable. */
  predicate SlotReadable(mem: Memory, addr: Word)
  {
    addr <= LastSlot && forall a :: a in SlotAddresses(addr) ==> a in mem
  }

  /** The eight bytes starting at `addr`, in address order. */
  function SlotBytes(mem: Memory, addr: Word): (bs: seq<Byte>)
    requires SlotReadable(mem, addr)
    ensures |bs| == 8
  {
    var s := SlotAddresses(addr);
    assert s[0] in mem && s[1] in mem && s[2] in mem && s[3] in mem;
    assert s[4] in mem && s[5] in mem && s[6] in mem && s[7] in mem;
    [mem[s[0]], mem[s[1]], mem[s[2]], mem[s[3]], mem[s[4]], mem[s[5]], mem[s[6]], mem[s[7]]]
  }

  /** Read the 8-byte entry at `addr`, little-endian, or nothing when some of
      its bytes cannot be read. */
  function ReadEntry(mem: Memory, addr: Word): Option<Word>
  {
    if SlotReadable(mem, addr) then Some(DecodeWord(SlotBytes(mem, addr))) else None
  }

  /** A read succeeds exactly when all eight bytes are readable, and then the
      entry is the word whose little-endian encoding they are (so it is below
      2^64, and no other word has that encoding). */
  lemma ReadEntryDecodes(mem: Memory, addr: Word)
    ensures ReadEntry(mem, addr).Some? <==> SlotReadable(mem, addr)
    ensures ReadEntry(mem, addr).Some? ==> EncodeWord(ReadEntry(mem, addr).value) == SlotBytes(mem, addr)
  {
  }

  /** `m1` and `m2` can read the same bytes of the slot at `addr` and hold
      the same values there. */
  predicate AgreeOn(m1: Memory, m2: Memory, addr: Word)
  {
    addr <= LastSlot ==>
      forall a :: a in SlotAddresses(addr) ==> (a in m1 <==> a in m2) && (a in m1 ==> m1[a] == m2[a])
  }

  /** An entry read depends only on the eight bytes it reads. */
  lemma ReadEntryFrame(m1: Memory, m2: Memory, addr: Word)
    requires AgreeOn(m1, m2, addr)
    ensures ReadEntry(m1, addr) == ReadEntry(m2, addr)
  {
    if SlotReadable(m1, addr) {
      assert SlotBytes(m1, addr) == SlotBytes(m2, addr);
    }
  }
}
