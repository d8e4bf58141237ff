# ptwalk: the x86-64 four-level page-table walk, in Dafny

This project models the `ptwalk` debugger command from `pagetablewalk.py`. The command translates a virtual address the way 4-level (IA-32e) paging does (Intel SDM, Vol. 3A, section 4.5):

1. It splits the address into four 9-bit table indices and a 12-bit page offset.
2. It takes the PML4 table base from CR3.
3. It reads up to four 8-byte little-endian entries from physical memory: PML4, PDPT, PD and PT.
4. It stops at an entry that cannot be read or is not present, and at a PDPT or PD entry whose page-size bit (bit 7) is set. Those two cases are 1 GiB and 2 MiB pages.
5. Otherwise it adds the page offset to the PT entry's frame.

The model follows the code's masks exactly, and they are not uniform:
- table bases and 4 KiB frames use bits 47:12 (`0xFFFFFFFFF000`);
- 2 MiB frames use bits 47:21;
- 1 GiB frames use bits 51:30.

The model has four modules:

- `LittleEndian`: the 8-byte little-endian decoding of an entry, and its inverse.
- `Paging`: the bit fields.
  - Index extraction and reassembly.
  - The present and page-size bits.
  - The table-base mask.
  - The entry address `base + index * 8`.
  - The three physical-address formulas.
  - Every addition is shown not to carry, so 64-bit words (`bv64`) agree with the unbounded Python integers.
- `PhysicalMemory`: physical memory as a map from the readable byte addresses to bytes. Reading an entry reads the 8 bytes at an address, all or nothing, and decodes them.
- `PageTableWalk`: the walk itself.
  - The result is a `Walk`: the records of the entries read (level, entry address, entry value; what the command prints at lines 91, 103, 122 and 141) and an `Outcome`. The outcome is `Translated(phys, size)`, `NotPresent(level)` or `ReadFailed(level, addr)`.
  - The code writes the PML4, PDPT, PD and PT blocks out one after another. The model writes one level once, as `StepAt`, parameterised by the depth. The depth selects the level name, the index, whether bit 7 is checked (PDPT and PD only) and the physical-address formula. `WalkFrom` chains the levels.
  - `PtWalk` is the command: the walk from depth 0 with the table base CR3 selects.
  - The walk is also described without running it, by `IsWalk`. Each record is the slot the level's index selects in the table the previous entry points to, read successfully, present and not a page mapping unless it is the last. The walk ends in one of the three ways the code allows.
  - `PtWalk` satisfies `IsWalk`, and nothing else does (`IsWalkUnique`). The properties below are proved about every `IsWalk`, so they hold for `PtWalk`.
  - The lemmas `Walk1GPage`, `Walk2MPage` and `Walk4KPage` run the code's path forward. From given entries they give the exact trace and result.

Two choices of the code that the model keeps as written:
- Section 4.5 of the Intel SDM (Vol. 3A) lets table bases and 4 KiB frames reach up to bit 51 (bits 51:12, with MAXPHYADDR at most 52). The code masks bits 47:12 (pagetablewalk.py:84, 98, 117, 136 and 147), and the model follows the code.
- When an entry cannot be read, the code prints "Failed to read memory at <addr>" (pagetablewalk.py:80) and no "Entry @" line for that level. So in the model that level has no trace record, and its slot address is kept in the `ReadFailed` outcome.

## Model

| member | source | states |
|---|---|---|
| LittleEndian.DecodeWord | pagetablewalk.py:77 | the entry is the word whose little-endian byte encoding is exactly the 8 bytes read |
| LittleEndian.DecodeEncodeWord | pagetablewalk.py:77 | decoding the encoding of any 64-bit word gives it back, so the encoding is one-to-one, and with `DecodeWord`'s ensures the two are inverse |
| Paging.Decode | pagetablewalk.py:54-58 | the four indices are below 512, the offset below 4096, and reassembling them gives the low 48 bits of the address |
| Paging.Reassemble | pagetablewalk.py:54-58 | indices and offset put back together give an address below 2^48 |
| Paging.DecodeReassemble | pagetablewalk.py:54-58 | decoding a reassembled address recovers every index and the offset |
| Paging.TableBase | pagetablewalk.py:84 | the masked base has its low 12 bits clear, lies below 2^48, and keeps bits 47:12 of the entry (or CR3) |
| Paging.EntryAddress | pagetablewalk.py:87 | `base + index*8` never carries: it equals `base` with the index placed in bits 11:3 |
| Paging.EntryAddressInTable | pagetablewalk.py:87 | an entry address is 8-byte aligned, lies in the 4 KiB table starting at `base`, and is slot `index` of it |
| Paging.PhysAddress1G | pagetablewalk.py:111 | the 1 GiB sum never carries: it is entry bits 51:30 or-ed with the low 30 bits of the address |
| Paging.PhysAddress2M | pagetablewalk.py:130 | the 2 MiB sum never carries: it is entry bits 47:21 or-ed with the low 21 bits of the address |
| Paging.PhysAddress4K | pagetablewalk.py:147-148 | the 4 KiB sum never carries: it is the frame (entry bits 47:12) or-ed with the page offset |
| Paging.PhysAddress1GBits | pagetablewalk.py:109-114 | a 1 GiB translation keeps the low 30 bits of the address, and its higher bits are entry bits 51:30 |
| Paging.PhysAddress2MBits | pagetablewalk.py:128-133 | a 2 MiB translation keeps the low 21 bits of the address, and its higher bits are entry bits 47:21 |
| Paging.PhysAddress4KBits | pagetablewalk.py:146-148 | a 4 KiB translation keeps the page offset, and its higher bits are entry bits 47:12 |
| PhysicalMemory.ReadEntryDecodes | pagetablewalk.py:72-81 | an entry read succeeds exactly when all 8 bytes are readable, and then yields the word those bytes encode little-endian |
| PhysicalMemory.ReadEntryFrame | pagetablewalk.py:75 | an entry read depends only on the 8 bytes at its address |
| PageTableWalk.IndexAt | pagetablewalk.py:54-57 | the index used at each level is below 512 |
| PageTableWalk.StepAt | pagetablewalk.py:97-114 | one level either ends the walk or descends, only from the PML4, PDPT or PD, to a 4 KiB-aligned next table |
| PageTableWalk.PtWalk | pagetablewalk.py:53-149 | the command's walk satisfies the description of a walk (`IsWalk`) |
| PageTableWalk.WalkFromIsWalk | pagetablewalk.py:84-148 | the walk from any level with any aligned table base satisfies `IsWalk` |
| PageTableWalk.IsWalkUnique | pagetablewalk.py:84-148 | anything satisfying `IsWalk` from a level is the walk from that level |
| PageTableWalk.PtWalkUnique | pagetablewalk.py:53-149 | anything satisfying `IsWalk` from the PML4 table CR3 selects is the command's walk |
| PageTableWalk.RecordsAt | pagetablewalk.py:86-144 | record `i` is for level `d+i`, holds the value read at its address, and unless last is present without a page mapping |
| PageTableWalk.RecordsSlotAt | pagetablewalk.py:97-99 | every later record is the slot its level's index selects in the table the previous entry points to |
| PageTableWalk.WalkRecord | pagetablewalk.py:86-144 | a walk has at most four records; record `i` is level `i`, its entry is what was read there, and every record but the last is present without a page mapping |
| PageTableWalk.WalkRecordSlot | pagetablewalk.py:84-99 | the first record is the PML4 slot in the CR3 table; every later one is its index's slot in the table the previous entry points to |
| PageTableWalk.WalkStopsWhenNotPresent | pagetablewalk.py:93-144 | an entry with bit 0 clear is the last record, and the walk ends "not present" at its level |
| PageTableWalk.WalkNotPresent | pagetablewalk.py:93-144 | the walk ends "not present" exactly when its last entry is not present, after one read per level down to that level |
| PageTableWalk.WalkReadFailed | pagetablewalk.py:86-140 | after a failed read nothing deeper is read: the walk has one present, non-leaf record per level above, and the failed address is that level's slot, which cannot be read |
| PageTableWalk.Walk1G | pagetablewalk.py:109-114 | a 1 GiB result happens exactly when the second record is a present PDPT entry with bit 7 set; phys is the 1G formula and keeps the low 30 bits |
| PageTableWalk.Walk2M | pagetablewalk.py:128-133 | a 2 MiB result happens exactly when the third record is a present PD entry with bit 7 set; phys is the 2M formula and keeps the low 21 bits |
| PageTableWalk.Walk4K | pagetablewalk.py:136-148 | a 4 KiB result happens exactly when there are four records and the PT entry is present; phys is the PT frame plus the offset and keeps the low 12 bits |
| PageTableWalk.Walk1GPage | pagetablewalk.py:86-114 | a present PML4 entry over a present PDPT entry with bit 7 set gives exactly those two records and the 1 GiB translation |
| PageTableWalk.Walk2MPage | pagetablewalk.py:86-133 | present PML4 and PDPT entries (PDPT bit 7 clear) over a present PD entry with bit 7 set give exactly three records and the 2 MiB translation |
| PageTableWalk.Walk4KPage | pagetablewalk.py:86-148 | four present entries, with bit 7 clear in the PDPT and PD entries, give exactly four records and the 4 KiB translation; bit 7 of PML4 and PT plays no part |
| PageTableWalk.PtWalk4KPage | pagetablewalk.py:84-148 | the same four-level path for the command itself, reading physical memory and starting from CR3 |
| PageTableWalk.WalkFrame | pagetablewalk.py:72-81 | a walk stays a walk under any reader that agrees on the addresses it read |
| PageTableWalk.PtWalkFrame | pagetablewalk.py:75 | the command's result is unchanged in any memory that agrees on the bytes of the slots it read |

## Left out

- `invoke` and the `Qqemu.PhyMemMode` maintenance packets (pagetablewalk.py:18-25) are debugger-session side effects with no bearing on the translation.
- Argument splitting and the usage message (pagetablewalk.py:29-32) are left out.
- Parsing the address with `int(s, 0)` (pagetablewalk.py:36) is left out. The address is an input `bv64`, so negative values and values of 2^64 or more are not modelled.
- CR3 is read through the debugger (pagetablewalk.py:44-48). Here it is an input `bv64`.
- `inferior.read_memory` (pagetablewalk.py:75) is an abstract map of readable bytes. An 8-byte read at an address above 2^64 - 8 counts as a failed read. What exception a failed read raises, and the message printed for it (pagetablewalk.py:80), are left out.
- All printing is left out (pagetablewalk.py:50-64, 91, 94, 103, 105, 112-113, 122, 124, 131-132, 141, 143, 149). The trace records stand for the entry lines, and the outcome for the final lines.
- The code's four written-out level blocks are one parameterised `StepAt` in the model. It is not proved equal to a literal four-level transcription. Instead, `StepAt` fixes each depth's level, index, bit-7 check and formula, and the endings are stated as follows:
  - `Walk1GPage`, `Walk2MPage`, `Walk4KPage` and `PtWalk4KPage` run the translated paths forward from given entries.
  - `WalkStopsWhenNotPresent` and `WalkNotPresent` characterise the four not-present endings.
  - `WalkReadFailed` characterises every walk that ends in a failed read.
