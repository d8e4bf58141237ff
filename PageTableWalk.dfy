/** The `ptwalk` command's translation of a virtual address: starting from
    CR3, read the PML4, PDPT, PD and PT entries in turn, stop at an entry
    that cannot be read, at an entry that is not present, or at a PDPT or PD
    entry that maps a 1 GiB or 2 MiB page, and otherwise combine the PT
    entry's frame with the page offset. The walk also records every entry it
    read, as the command prints them. */
module PageTableWalk {
  import opened Paging
  import opened PhysicalMemory

  /** One entry read during the walk: its level, its address and its value. */
  datatype Visit = Visit(level: Level, entryAddr: Word, entry: Word)

  /** How a walk ends. */
  datatype Outcome =
    | Translated(phys: Word, size: PageSize)
    | NotPresent(level: Level)
    | ReadFailed(level: Level, addr: Word)

  datatype Walk = Walk(trace: seq<Visit>, outcome: Outcome)

  /** How the walk reads an entry: the 64-bit value of the entry at a
      physical address, or nothing when the read fails. */
  type Reader = Word -> Option<Word>

  /** The command's reader: eight bytes of physical memory, little-endian. */
  function EntryReader(mem: Memory): Reader
  {
    addr => ReadEntry(mem, addr)
  }

  // ---------------------------------------------------------------------------
  // One level of the walk, and the walk from a level on
  // ---------------------------------------------------------------------------

  /** The 9-bit index used at depth `d` (0 for the PML4). */
  function IndexAt(vaddr: Word, d: nat): (index: Word)
    requires d < 4
    ensures index < 512
  {
    var ix := Decode(vaddr);
    if d == 0 then ix.pml4 else if d == 1 then ix.pdpt else if d == 2 then ix.pd else ix.pt
  }

  /** The slot read at depth `d` when the table there is at `base`. */
  function SlotAt(vaddr: Word, d: nat, base: Word): Word
    requires d < 4 && (base & 0xFFF) == 0
  {
    EntryAddress(base, IndexAt(vaddr, d))
  }

  /** A present entry at depth `d` ends the walk: always at the PT, and at the
      PDPT or PD when its page-size bit is set. */
  predicate MapsPage(d: nat, entry: Word)
  {
    d == 3 || ((d == 1 || d == 2) && PageSizeBit(entry))
  }

  /** The page size an entry at depth `d` maps. */
  function SizeAt(d: nat): PageSize
  {
    if d == 1 then Size1G else if d == 2 then Size2M else Size4K
  }

  /** The physical address given by an entry at depth `d` that maps a page. */
  function LeafAddress(d: nat, entry: Word, vaddr: Word): Word
  {
    if d == 1 then PhysAddress1G(entry, vaddr)
    else if d == 2 then PhysAddress2M(entry, vaddr)
    else PhysAddress4K(entry, vaddr & Offset4KMask)
  }

  /** What reading one level does. */
  datatype Step =
    | Stop(last: Walk)                  // the walk ends here, with this record (if any) and outcome
    | Descend(visit: Visit, next: Word) // the entry was read and points to the next table

  /** One level of the walk at depth `d` with the table at `base`: read the
      slot the index selects; stop if it cannot be read, if the entry is not
      present, or if it maps a page; otherwise descend to the table the entry
      points to. */
  function StepAt(vaddr: Word, read: Reader, d: nat, base: Word): (s: Step)
    requires d < 4 && (base & 0xFFF) == 0
    ensures s.Descend? ==> d < 3 && (s.next & 0xFFF) == 0
  {
    var level := LevelAt(d);
    var addr := SlotAt(vaddr, d, base);
    match read(addr)
    case None => Stop(Walk([], ReadFailed(level, addr)))
    case Some(entry) =>
      var visit := Visit(level, addr, entry);
      if !Present(entry) then Stop(Walk([visit], NotPresent(level)))
      else if MapsPage(d, entry) then Stop(Walk([visit], Translated(LeafAddress(d, entry, vaddr), SizeAt(d))))
      else Descend(visit, TableBase(entry))
  }

  /** The walk from depth `d` on, starting with the table at `base`. */
  function WalkFrom(vaddr: Word, read: Reader, d: nat, base: Word): Walk
    requires d < 4 && (base & 0xFFF) == 0
    decreases 4 - d
  {
    match StepAt(vaddr, read, d, base)
    case Stop(last) => last
    case Descend(visit, next) =>
      var rest := WalkFrom(vaddr, read, d + 1, next);
      Walk([visit] + rest.trace, rest.outcome)
  }

  /** The walk from a level that ends it is what that level gives. */
  lemma WalkFromStop(vaddr: Word, read: Reader, d: nat, base: Word)
    requires d < 4 && (base & 0xFFF) == 0
    requires StepAt(vaddr, read, d, base).Stop?
    ensures WalkFrom(vaddr, read, d, base) == StepAt(vaddr, read, d, base).last
  {
  }

  /** The walk from a level that descends is its record followed by the walk
      from the next table. */
  lemma WalkFromDescend(vaddr: Word, read: Reader, d: nat, base: Word)
    requires d < 4 && (base & 0xFFF) == 0
    requires StepAt(vaddr, read, d, base).Descend?
    ensures var s := StepAt(vaddr, read, d, base);
            var rest := WalkFrom(vaddr, read, d + 1, s.next);
            WalkFrom(vaddr, read, d, base) == Walk([s.visit] + rest.trace, rest.outcome)
  {
  }

  // ---------------------------------------------------------------------------
  // What a walk is, stated without running one
  // ---------------------------------------------------------------------------

  /** The records of a walk from depth `d` with the table at `base`: record
      `i` is for level `d + i`, is the slot of that level's table that the
      virtual address selects, holds an entry read successfully there, and,
      unless it is the last record, is present and does not map a page, and
      so points to the next level's table. */
  predicate Records(vaddr: Word, read: Reader, d: nat, base: Word, trace: seq<Visit>)
    decreases |trace|
  {
    |trace| == 0 ||
      (&& d < 4 && (base & 0xFFF) == 0
       && trace[0].level == LevelAt(d)
       && trace[0].entryAddr == SlotAt(vaddr, d, base)
       && read(trace[0].entryAddr) == Some(trace[0].entry)
       && (|trace| > 1 ==> Present(trace[0].entry) && !MapsPage(d, trace[0].entry))
       && Records(vaddr, read, d + 1, TableBase(trace[0].entry), trace[1..]))
  }

  /** The table a walk from `base` reads next after the records `trace`. */
  function BaseAfter(base: Word, trace: seq<Visit>): Word
  {
    if |trace| == 0 then base else TableBase(trace[|trace| - 1].entry)
  }

  /** How a walk from depth `d` may end after its records: a failed read of
      the slot it would read next (after a present entry that does not map a
      page, if any); a last record that is not present; or a last record that
      is present and maps a page, giving that page's physical address. */
  predicate Concludes(vaddr: Word, read: Reader, d: nat, base: Word, w: Walk)
  {
    var n := |w.trace|;
    match w.outcome
    case ReadFailed(level, addr) =>
      var at := BaseAfter(base, w.trace);
      && d + n < 4 && (at & 0xFFF) == 0
      && (n > 0 ==> Present(w.trace[n - 1].entry) && !MapsPage(d + n - 1, w.trace[n - 1].entry))
      && level == LevelAt(d + n)
      && addr == SlotAt(vaddr, d + n, at)
      && read(addr) == None
    case NotPresent(level) =>
      && n > 0 && d + n - 1 < 4
      && level == LevelAt(d + n - 1)
      && !Present(w.trace[n - 1].entry)
    case Translated(phys, size) =>
      && n > 0 && d + n - 1 < 4
      && Present(w.trace[n - 1].entry) && MapsPage(d + n - 1, w.trace[n - 1].entry)
      && size == SizeAt(d + n - 1)
      && phys == LeafAddress(d + n - 1, w.trace[n - 1].entry, vaddr)
  }

  /** `w` is a walk of `vaddr` from depth `d` with the table at `base`. */
  predicate IsWalk(vaddr: Word, read: Reader, d: nat, base: Word, w: Walk)
  {
    Records(vaddr, read, d, base, w.trace) && Concludes(vaddr, read, d, base, w)
  }

  /** Record `i` of a walk from depth `d`, stated directly. */
  lemma {:induction false} RecordsAt(vaddr: Word, read: Reader, d: nat, base: Word, trace: seq<Visit>, i: nat)
    requires Records(vaddr, read, d, base, trace)
    requires i < |trace|
    ensures d + i < 4
    ensures trace[i].level == LevelAt(d + i)
    ensures read(trace[i].entryAddr) == Some(trace[i].entry)
    ensures i + 1 < |trace| ==> Present(trace[i].entry) && !MapsPage(d + i, trace[i].entry)
    decreases i
  {
    if i > 0 {
      var rest := trace[1..];
      RecordsAt(vaddr, read, d + 1, TableBase(trace[0].entry), rest, i - 1);
      assert rest[i - 1] == trace[i];
      assert (d + 1) + (i - 1) == d + i;
      assert LevelAt((d + 1) + (i - 1)) == LevelAt(d + i);
      assert MapsPage((d + 1) + (i - 1), trace[i].entry) == MapsPage(d + i, trace[i].entry);
    }
  }

  /** Every record after the first of a walk from depth `d` is the slot its
      level's index selects in the table the previous record points to. */
  lemma {:induction false} RecordsSlotAt(vaddr: Word, read: Reader, d: nat, base: Word, trace: seq<Visit>, i: nat)
    requires Records(vaddr, read, d, base, trace)
    requires 0 < i < |trace|
    ensures d + i < 4
    ensures trace[i].entryAddr == SlotAt(vaddr, d + i, TableBase(trace[i - 1].entry))
    decreases i
  {
    var rest := trace[1..];
    var next := TableBase(trace[0].entry);
    assert rest[i - 1] == trace[i];
    assert (d + 1) + (i - 1) == d + i;
    if i == 1 {
      assert rest[0].entryAddr == SlotAt(vaddr, d + 1, next);
    } else {
      RecordsSlotAt(vaddr, read, d + 1, next, rest, i - 1);
      assert rest[i - 2] == trace[i - 1];
    }
    assert SlotAt(vaddr, (d + 1) + (i - 1), TableBase(trace[i - 1].entry)) == SlotAt(vaddr, d + i, TableBase(trace[i - 1].entry));
  }

  // One level at a time: what a level that stops gives is a whole walk, and
  // what a level that descends gives extends a walk from the next table.

  lemma FailedReadIsWalk(vaddr: Word, read: Reader, d: nat, base: Word)
    requires d < 4 && (base & 0xFFF) == 0
    requires read(SlotAt(vaddr, d, base)) == None
    ensures IsWalk(vaddr, read, d, base, Walk([], ReadFailed(LevelAt(d), SlotAt(vaddr, d, base))))
  {
    var addr := SlotAt(vaddr, d, base);
    var w := Walk([], ReadFailed(LevelAt(d), addr));
    assert |w.trace| == 0;
    assert BaseAfter(base, w.trace) == base;
    assert d + |w.trace| == d;
    assert SlotAt(vaddr, d + |w.trace|, BaseAfter(base, w.trace)) == addr;
    assert LevelAt(d + |w.trace|) == LevelAt(d);
  }

  lemma LastRecordIsWalk(vaddr: Word, read: Reader, d: nat, base: Word, entry: Word, outcome: Outcome)
    requires d < 4 && (base & 0xFFF) == 0
    requires read(SlotAt(vaddr, d, base)) == Some(entry)
    requires !Present(entry) ==> outcome == NotPresent(LevelAt(d))
    requires Present(entry) ==> MapsPage(d, entry) && outcome == Translated(LeafAddress(d, entry, vaddr), SizeAt(d))
    ensures IsWalk(vaddr, read, d, base, Walk([Visit(LevelAt(d), SlotAt(vaddr, d, base), entry)], outcome))
  {
    var w := Walk([Visit(LevelAt(d), SlotAt(vaddr, d, base), entry)], outcome);
    assert Records(vaddr, read, d + 1, TableBase(entry), []);
    assert d + |w.trace| - 1 == d;
    assert LeafAddress(d + |w.trace| - 1, entry, vaddr) == LeafAddress(d, entry, vaddr);
  }

  /** A level that ends the walk is a whole walk from that level. */
  lemma StepStopIsWalk(vaddr: Word, read: Reader, d: nat, base: Word)
    requires d < 4 && (base & 0xFFF) == 0
    requires StepAt(vaddr, read, d, base).Stop?
    ensures IsWalk(vaddr, read, d, base, StepAt(vaddr, read, d, base).last)
  {
    match read(SlotAt(vaddr, d, base))
    case None =>
      FailedReadIsWalk(vaddr, read, d, base);
    case Some(entry) =>
      LastRecordIsWalk(vaddr, read, d, base, entry, StepAt(vaddr, read, d, base).last.outcome);
  }

  /** A level that does not end the walk reads a present entry that does not
      map a page, at the slot the index selects, and descends to the table
      that entry points to. */
  lemma StepDescends(vaddr: Word, read: Reader, d: nat, base: Word)
    requires d < 4 && (base & 0xFFF) == 0
    requires StepAt(vaddr, read, d, base).Descend?
    ensures var s := StepAt(vaddr, read, d, base);
            && s.visit.level == LevelAt(d)
            && s.visit.entryAddr == SlotAt(vaddr, d, base)
            && read(s.visit.entryAddr) == Some(s.visit.entry)
            && Present(s.visit.entry) && !MapsPage(d, s.visit.entry)
            && s.next == TableBase(s.visit.entry)
  {
  }

  /** A record for a present, non-leaf entry at depth `d` followed by the
      records of a walk from the next table are records from depth `d`. */
  lemma RecordsCons(vaddr: Word, read: Reader, d: nat, base: Word, visit: Visit, trace: seq<Visit>)
    requires d < 3 && (base & 0xFFF) == 0
    requires visit.level == LevelAt(d)
    requires visit.entryAddr == SlotAt(vaddr, d, base)
    requires read(visit.entryAddr) == Some(visit.entry)
    requires Present(visit.entry) && !MapsPage(d, visit.entry)
    requires Records(vaddr, read, d + 1, TableBase(visit.entry), trace)
    ensures Records(vaddr, read, d, base, [visit] + trace)
  {
    assert ([visit] + trace)[1..] == trace;
  }

  /** Such a record in front of a walk from the next table does not change
      how the walk ends. */
  lemma ConcludesCons(vaddr: Word, read: Reader, d: nat, base: Word, visit: Visit, rest: Walk)
    requires d < 3 && (base & 0xFFF) == 0
    requires Present(visit.entry) && !MapsPage(d, visit.entry)
    requires Concludes(vaddr, read, d + 1, TableBase(visit.entry), rest)
    ensures Concludes(vaddr, read, d, base, Walk([visit] + rest.trace, rest.outcome))
  {
    var w := Walk([visit] + rest.trace, rest.outcome);
    var m := |rest.trace|;
    assert |w.trace| == m + 1 && d + |w.trace| == (d + 1) + m;
    assert w.trace[m] == if m == 0 then visit else rest.trace[m - 1];
    assert BaseAfter(base, w.trace) == BaseAfter(TableBase(visit.entry), rest.trace);
  }

  /** Conversely, the records of a walk from depth `d` whose first record is
      present and does not map a page go on as records from the next table. */
  lemma RecordsTail(vaddr: Word, read: Reader, d: nat, base: Word, trace: seq<Visit>)
    requires Records(vaddr, read, d, base, trace)
    requires |trace| > 0 && Present(trace[0].entry) && !MapsPage(d, trace[0].entry)
    ensures d < 3
    ensures Records(vaddr, read, d + 1, TableBase(trace[0].entry), trace[1..])
  {
  }

  /** And how it ends does not change either. */
  lemma ConcludesTail(vaddr: Word, read: Reader, d: nat, base: Word, w: Walk)
    requires Concludes(vaddr, read, d, base, w)
    requires |w.trace| > 0 && Present(w.trace[0].entry) && !MapsPage(d, w.trace[0].entry)
    ensures Concludes(vaddr, read, d + 1, TableBase(w.trace[0].entry), Walk(w.trace[1..], w.outcome))
  {
    var n := |w.trace|;
    var rest := Walk(w.trace[1..], w.outcome);
    assert d + n == (d + 1) + |rest.trace|;
    assert BaseAfter(base, w.trace) == BaseAfter(TableBase(w.trace[0].entry), rest.trace);
    if n > 1 {
      assert rest.trace[n - 2] == w.trace[n - 1];
    }
  }

  /** The walk from depth `d` is a walk. */
  lemma {:induction false} WalkFromIsWalk(vaddr: Word, read: Reader, d: nat, base: Word)
    requires d < 4 && (base & 0xFFF) == 0
    ensures IsWalk(vaddr, read, d, base, WalkFrom(vaddr, read, d, base))
    decreases 4 - d
  {
    match StepAt(vaddr, read, d, base)
    case Stop(last) =>
      StepStopIsWalk(vaddr, read, d, base);
      WalkFromStop(vaddr, read, d, base);
    case Descend(visit, next) =>
      StepDescends(vaddr, read, d, base);
      WalkFromIsWalk(vaddr, read, d + 1, next);
      var rest := WalkFrom(vaddr, read, d + 1, next);
      RecordsCons(vaddr, read, d, base, visit, rest.trace);
      ConcludesCons(vaddr, read, d, base, visit, rest);
      WalkFromDescend(vaddr, read, d, base);
  }

  /** A walk whose first read fails is that failed read alone. */
  lemma UniqueWhenReadFails(vaddr: Word, read: Reader, d: nat, base: Word, w: Walk)
    requires d < 4 && (base & 0xFFF) == 0
    requires IsWalk(vaddr, read, d, base, w)
    requires read(SlotAt(vaddr, d, base)) == None
    ensures w == WalkFrom(vaddr, read, d, base)
  {
    assert |w.trace| == 0;
    assert BaseAfter(base, w.trace) == base;
    assert SlotAt(vaddr, d + |w.trace|, base) == SlotAt(vaddr, d, base);
    assert w.outcome == ReadFailed(LevelAt(d), SlotAt(vaddr, d, base));
    assert w.trace == [];
    WalkFromStop(vaddr, read, d, base);
  }

  /** A walk whose first entry is read and ends the walk is that one record
      and the end it gives. */
  lemma UniqueWhenFirstEnds(vaddr: Word, read: Reader, d: nat, base: Word, w: Walk, entry: Word)
    requires d < 4 && (base & 0xFFF) == 0
    requires IsWalk(vaddr, read, d, base, w)
    requires read(SlotAt(vaddr, d, base)) == Some(entry)
    requires !(Present(entry) && !MapsPage(d, entry))
    ensures w == WalkFrom(vaddr, read, d, base)
  {
    assert |w.trace| > 0;
    assert |w.trace| == 1;
    assert w.trace[0] == Visit(LevelAt(d), SlotAt(vaddr, d, base), entry);
    assert w.trace == [Visit(LevelAt(d), SlotAt(vaddr, d, base), entry)];
    assert d + |w.trace| - 1 == d;
    assert LeafAddress(d + |w.trace| - 1, entry, vaddr) == LeafAddress(d, entry, vaddr);
    WalkFromStop(vaddr, read, d, base);
  }

  /** A walk whose first entry is present and does not map a page is that
      record followed by a walk from the next table. */
  lemma UniqueWhenDescends(vaddr: Word, read: Reader, d: nat, base: Word, w: Walk)
    requires d < 4 && (base & 0xFFF) == 0
    requires IsWalk(vaddr, read, d, base, w)
    requires StepAt(vaddr, read, d, base).Descend?
    ensures |w.trace| > 0 && w.trace[0] == StepAt(vaddr, read, d, base).visit
    ensures IsWalk(vaddr, read, d + 1, StepAt(vaddr, read, d, base).next, Walk(w.trace[1..], w.outcome))
  {
    StepDescends(vaddr, read, d, base);
    assert |w.trace| > 0;
    RecordsTail(vaddr, read, d, base, w.trace);
    ConcludesTail(vaddr, read, d, base, w);
  }

  /** A non-empty sequence is its first element followed by the rest. */
  lemma SplitFirst<T>(s: seq<T>)
    requires |s| > 0
    ensures s == [s[0]] + s[1..]
  {
  }

  /** There is only one walk: anything that satisfies the description of a
      walk from depth `d` is the walk from depth `d`. */
  lemma {:induction false} IsWalkUnique(vaddr: Word, read: Reader, d: nat, base: Word, w: Walk)
    requires d < 4 && (base & 0xFFF) == 0
    requires IsWalk(vaddr, read, d, base, w)
    ensures w == WalkFrom(vaddr, read, d, base)
    decreases 4 - d
  {
    match read(SlotAt(vaddr, d, base))
    case None =>
      UniqueWhenReadFails(vaddr, read, d, base, w);
    case Some(entry) =>
      if Present(entry) && !MapsPage(d, entry) {
        var s := StepAt(vaddr, read, d, base);
        assert s.Descend?;
        UniqueWhenDescends(vaddr, read, d, base, w);
        var tail := Walk(w.trace[1..], w.outcome);
        IsWalkUnique(vaddr, read, d + 1, s.next, tail);
        SplitFirst(w.trace);
        WalkFromDescend(vaddr, read, d, base);
      } else {
        UniqueWhenFirstEnds(vaddr, read, d, base, w, entry);
      }
  }

  // ---------------------------------------------------------------------------
  // The command's walk
  // ---------------------------------------------------------------------------

  /** `ptwalk`: the walk of `vaddr` through physical memory `mem` from the
      PML4 table whose base is CR3's bits 47:12. It is a walk in the sense of
      `IsWalk`, and `PtWalkUnique` shows it is the only one. */
  function PtWalk(vaddr: Word, cr3: Word, mem: Memory): (w: Walk)
    ensures IsWalk(vaddr, EntryReader(mem), 0, TableBase(cr3), w)
  {
    WalkFromIsWalk(vaddr, EntryReader(mem), 0, TableBase(cr3));
    WalkFrom(vaddr, EntryReader(mem), 0, TableBase(cr3))
  }

  /** Anything that satisfies the description of a walk of `vaddr` from the
      PML4 table CR3 selects is the command's walk. */
  lemma PtWalkUnique(vaddr: Word, cr3: Word, mem: Memory, w: Walk)
    requires IsWalk(vaddr, EntryReader(mem), 0, TableBase(cr3), w)
    ensures w == PtWalk(vaddr, cr3, mem)
  {
    IsWalkUnique(vaddr, EntryReader(mem), 0, TableBase(cr3), w);
  }

  /** Record `i` of a walk of `vaddr` from the PML4 table is for level `i`
      and holds the entry read at its address; a walk reads at most four
      entries, and every record but the last is present and does not map a
      page. */
  lemma WalkRecord(vaddr: Word, read: Reader, base: Word, w: Walk, i: nat)
    requires IsWalk(vaddr, read, 0, base, w)
    requires i < |w.trace|
    ensures |w.trace| <= 4
    ensures w.trace[i].level == LevelAt(i)
    ensures read(w.trace[i].entryAddr) == Some(w.trace[i].entry)
    ensures i + 1 < |w.trace| ==> Present(w.trace[i].entry) && !MapsPage(i, w.trace[i].entry)
  {
    RecordsAt(vaddr, read, 0, base, w.trace, |w.trace| - 1);
    RecordsAt(vaddr, read, 0, base, w.trace, i);
    assert LevelAt(0 + i) == LevelAt(i);
    assert MapsPage(0 + i, w.trace[i].entry) == MapsPage(i, w.trace[i].entry);
  }

  /** The first record of a walk of `vaddr` is the PML4 slot its index
      selects in the table at `base`; every later one is the slot its level's
      index selects in the table the previous entry points to. */
  lemma WalkRecordSlot(vaddr: Word, read: Reader, base: Word, w: Walk, i: nat)
    requires IsWalk(vaddr, read, 0, base, w)
    requires i < |w.trace|
    ensures i < 4 && (base & 0xFFF) == 0
    ensures i == 0 ==> w.trace[i].entryAddr == SlotAt(vaddr, 0, base)
    ensures i > 0 ==> w.trace[i].entryAddr == SlotAt(vaddr, i, TableBase(w.trace[i - 1].entry))
  {
    if i > 0 {
      RecordsSlotAt(vaddr, read, 0, base, w.trace, i);
      assert SlotAt(vaddr, 0 + i, TableBase(w.trace[i - 1].entry)) == SlotAt(vaddr, i, TableBase(w.trace[i - 1].entry));
    }
  }

  /** An entry that is not present ends the walk there: it is the last
      record, and the walk stops with "not present" at its level. */
  lemma WalkStopsWhenNotPresent(vaddr: Word, read: Reader, base: Word, w: Walk, i: nat)
    requires IsWalk(vaddr, read, 0, base, w)
    requires i < |w.trace| && !Present(w.trace[i].entry)
    ensures |w.trace| == i + 1
    ensures w.outcome == NotPresent(LevelAt(i))
  {
    RecordsAt(vaddr, read, 0, base, w.trace, i);
    assert 0 + |w.trace| - 1 == i;
  }

  /** A walk stops with "not present" exactly when its last record is not
      present; it then read one entry per level down to that level. */
  lemma WalkNotPresent(vaddr: Word, read: Reader, base: Word, w: Walk)
    requires IsWalk(vaddr, read, 0, base, w)
    ensures w.outcome.NotPresent? <==> |w.trace| > 0 && !Present(w.trace[|w.trace| - 1].entry)
    ensures w.outcome.NotPresent? ==> |w.trace| == w.outcome.level.Depth() + 1
  {
    if |w.trace| > 0 && !Present(w.trace[|w.trace| - 1].entry) {
      WalkStopsWhenNotPresent(vaddr, read, base, w, |w.trace| - 1);
    }
  }

  /** A walk that stops on a failed read read one entry per level above the
      failed one, each present and not mapping a page, and nothing after it:
      the failed address is the slot the level's index selects in the table
      the last entry (or `base`) points to, and it cannot be read. */
  lemma WalkReadFailed(vaddr: Word, read: Reader, base: Word, w: Walk)
    requires IsWalk(vaddr, read, 0, base, w)
    requires w.outcome.ReadFailed?
    ensures |w.trace| == w.outcome.level.Depth() < 4
    ensures |w.trace| == 0 ==> (base & 0xFFF) == 0 && w.outcome.addr == SlotAt(vaddr, 0, base)
    ensures |w.trace| > 0 ==>
              var last := w.trace[|w.trace| - 1].entry;
              && Present(last) && !MapsPage(|w.trace| - 1, last)
              && w.outcome.addr == SlotAt(vaddr, |w.trace|, TableBase(last))
    ensures read(w.outcome.addr) == None
  {
    var n := |w.trace|;
    var at := BaseAfter(base, w.trace);
    assert SlotAt(vaddr, 0 + n, at) == SlotAt(vaddr, n, at);
    if n > 0 {
      assert MapsPage(0 + n - 1, w.trace[n - 1].entry) == MapsPage(n - 1, w.trace[n - 1].entry);
    }
  }

  /** A walk ends with a 1 GiB page exactly when its second record, the PDPT
      entry, is present with its page-size bit set; the physical address is
      then that entry's bits 51:30 plus the low 30 bits of `vaddr`, which it
      keeps. */
  lemma Walk1G(vaddr: Word, read: Reader, base: Word, w: Walk)
    requires IsWalk(vaddr, read, 0, base, w)
    ensures (w.outcome.Translated? && w.outcome.size == Size1G) <==>
            (|w.trace| == 2 && Present(w.trace[1].entry) && PageSizeBit(w.trace[1].entry))
    ensures w.outcome.Translated? && w.outcome.size == Size1G ==>
              && w.outcome.phys == PhysAddress1G(w.trace[1].entry, vaddr)
              && (w.outcome.phys & Offset1GMask) == (vaddr & Offset1GMask)
  {
    if |w.trace| == 2 {
      var e := w.trace[1].entry;
      assert 0 + |w.trace| - 1 == 1;
      assert LeafAddress(0 + |w.trace| - 1, e, vaddr) == PhysAddress1G(e, vaddr);
      PhysAddress1GBits(e, vaddr);
    }
  }

  /** A walk ends with a 2 MiB page exactly when its third record, the PD
      entry, is present with its page-size bit set; the physical address is
      then that entry's bits 47:21 plus the low 21 bits of `vaddr`, which it
      keeps. */
  lemma Walk2M(vaddr: Word, read: Reader, base: Word, w: Walk)
    requires IsWalk(vaddr, read, 0, base, w)
    ensures (w.outcome.Translated? && w.outcome.size == Size2M) <==>
            (|w.trace| == 3 && Present(w.trace[2].entry) && PageSizeBit(w.trace[2].entry))
    ensures w.outcome.Translated? && w.outcome.size == Size2M ==>
              && w.outcome.phys == PhysAddress2M(w.trace[2].entry, vaddr)
              && (w.outcome.phys & Offset2MMask) == (vaddr & Offset2MMask)
  {
    if |w.trace| == 3 {
      var e := w.trace[2].entry;
      assert 0 + |w.trace| - 1 == 2;
      assert LeafAddress(0 + |w.trace| - 1, e, vaddr) == PhysAddress2M(e, vaddr);
      PhysAddress2MBits(e, vaddr);
    }
  }

  /** A walk ends with a 4 KiB page exactly when it read all four entries and
      the last, the PT entry, is present (its page-size bit plays no part);
      the physical address is then that entry's bits 47:12 plus the page
      offset, which it keeps. */
  lemma Walk4K(vaddr: Word, read: Reader, base: Word, w: Walk)
    requires IsWalk(vaddr, read, 0, base, w)
    ensures (w.outcome.Translated? && w.outcome.size == Size4K) <==>
            (|w.trace| == 4 && Present(w.trace[3].entry))
    ensures w.outcome.Translated? && w.outcome.size == Size4K ==>
              && w.outcome.phys == PhysAddress4K(w.trace[3].entry, vaddr & Offset4KMask)
              && (w.outcome.phys & Offset4KMask) == (vaddr & Offset4KMask)
  {
    var n := |w.trace|;
    if w.outcome.Translated? && w.outcome.size == Size4K {
      assert SizeAt(0 + n - 1) == Size4K && MapsPage(0 + n - 1, w.trace[n - 1].entry);
      assert n == 4;
    }
    if n == 4 {
      var e := w.trace[3].entry;
      assert 0 + |w.trace| - 1 == 3;
      assert LeafAddress(0 + |w.trace| - 1, e, vaddr) == PhysAddress4K(e, vaddr & Offset4KMask);
      PhysAddress4KBits(e, vaddr & Offset4KMask);
    }
  }

  /** The walk from a level whose entry is read, present and does not map a
      page is that entry's record followed by the walk from the table it
      points to. */
  lemma WalkFromPresent(vaddr: Word, read: Reader, d: nat, base: Word, entry: Word)
    requires d < 4 && (base & 0xFFF) == 0
    requires read(SlotAt(vaddr, d, base)) == Some(entry)
    requires Present(entry) && !MapsPage(d, entry)
    ensures d < 3
    ensures var rest := WalkFrom(vaddr, read, d + 1, TableBase(entry));
            WalkFrom(vaddr, read, d, base) == Walk([Visit(LevelAt(d), SlotAt(vaddr, d, base), entry)] + rest.trace, rest.outcome)
  {
    WalkFromDescend(vaddr, read, d, base);
  }

  /** The walk from a level whose entry is read, present and maps a page is
      that entry's record and the page it maps. */
  lemma WalkFromLeaf(vaddr: Word, read: Reader, d: nat, base: Word, entry: Word)
    requires d < 4 && (base & 0xFFF) == 0
    requires read(SlotAt(vaddr, d, base)) == Some(entry)
    requires Present(entry) && MapsPage(d, entry)
    ensures WalkFrom(vaddr, read, d, base) ==
              Walk([Visit(LevelAt(d), SlotAt(vaddr, d, base), entry)], Translated(LeafAddress(d, entry, vaddr), SizeAt(d)))
  {
    WalkFromStop(vaddr, read, d, base);
  }

  lemma PrependTo1<T>(a: T, b: T)
    ensures [a] + [b] == [a, b]
  {
  }

  lemma PrependTo2<T>(a: T, b: T, c: T)
    ensures [a] + [b, c] == [a, b, c]
  {
  }

  lemma PrependTo3<T>(a: T, b: T, c: T, d: T)
    ensures [a] + [b, c, d] == [a, b, c, d]
  {
  }

  // The three ways to a page, level by level: which entries the walk reads,
  // from which slots, and what it translates to.

  /** A present PDPT entry with its page-size bit set, under a present PML4
      entry, maps a 1 GiB page: the walk reads those two entries only. */
  lemma Walk1GPage(vaddr: Word, read: Reader, base: Word, e0: Word, e1: Word)
    requires (base & 0xFFF) == 0
    requires read(SlotAt(vaddr, 0, base)) == Some(e0) && Present(e0)
    requires read(SlotAt(vaddr, 1, TableBase(e0))) == Some(e1) && Present(e1) && PageSizeBit(e1)
    ensures WalkFrom(vaddr, read, 0, base) ==
              Walk([Visit(PML4, SlotAt(vaddr, 0, base), e0), Visit(PDPT, SlotAt(vaddr, 1, TableBase(e0)), e1)],
                   Translated(PhysAddress1G(e1, vaddr), Size1G))
  {
    var v0 := Visit(PML4, SlotAt(vaddr, 0, base), e0);
    var v1 := Visit(PDPT, SlotAt(vaddr, 1, TableBase(e0)), e1);
    WalkFromLeaf(vaddr, read, 1, TableBase(e0), e1);
    WalkFromPresent(vaddr, read, 0, base, e0);
    PrependTo1(v0, v1);
  }

  /** The walk from a PD entry that is present with its page-size bit set is
      that entry and the 2 MiB page it maps. */
  lemma WalkFromPD2M(vaddr: Word, read: Reader, base: Word, e2: Word)
    requires (base & 0xFFF) == 0
    requires read(SlotAt(vaddr, 2, base)) == Some(e2) && Present(e2) && PageSizeBit(e2)
    ensures WalkFrom(vaddr, read, 2, base) ==
              Walk([Visit(PD, SlotAt(vaddr, 2, base), e2)], Translated(PhysAddress2M(e2, vaddr), Size2M))
  {
    WalkFromLeaf(vaddr, read, 2, base, e2);
  }

  /** The walk from a present PDPT entry without the page-size bit, over a
      present PD entry with it, is those two entries and the 2 MiB page. */
  lemma WalkFromPDPT2M(vaddr: Word, read: Reader, base: Word, e1: Word, e2: Word)
    requires (base & 0xFFF) == 0
    requires read(SlotAt(vaddr, 1, base)) == Some(e1) && Present(e1) && !PageSizeBit(e1)
    requires read(SlotAt(vaddr, 2, TableBase(e1))) == Some(e2) && Present(e2) && PageSizeBit(e2)
    ensures WalkFrom(vaddr, read, 1, base) ==
              Walk([Visit(PDPT, SlotAt(vaddr, 1, base), e1), Visit(PD, SlotAt(vaddr, 2, TableBase(e1)), e2)],
                   Translated(PhysAddress2M(e2, vaddr), Size2M))
  {
    var v1 := Visit(PDPT, SlotAt(vaddr, 1, base), e1);
    var v2 := Visit(PD, SlotAt(vaddr, 2, TableBase(e1)), e2);
    WalkFromPD2M(vaddr, read, TableBase(e1), e2);
    WalkFromPresent(vaddr, read, 1, base, e1);
    PrependTo1(v1, v2);
  }

  /** A present PD entry with its page-size bit set, under present PML4 and
      PDPT entries and a PDPT entry without it, maps a 2 MiB page: the walk
      reads those three entries only. */
  lemma Walk2MPage(vaddr: Word, read: Reader, base: Word, e0: Word, e1: Word, e2: Word)
    requires (base & 0xFFF) == 0
    requires read(SlotAt(vaddr, 0, base)) == Some(e0) && Present(e0)
    requires read(SlotAt(vaddr, 1, TableBase(e0))) == Some(e1) && Present(e1) && !PageSizeBit(e1)
    requires read(SlotAt(vaddr, 2, TableBase(e1))) == Some(e2) && Present(e2) && PageSizeBit(e2)
    ensures WalkFrom(vaddr, read, 0, base) ==
              Walk([Visit(PML4, SlotAt(vaddr, 0, base), e0), Visit(PDPT, SlotAt(vaddr, 1, TableBase(e0)), e1),
                    Visit(PD, SlotAt(vaddr, 2, TableBase(e1)), e2)],
                   Translated(PhysAddress2M(e2, vaddr), Size2M))
  {
    var v0 := Visit(PML4, SlotAt(vaddr, 0, base), e0);
    var v1 := Visit(PDPT, SlotAt(vaddr, 1, TableBase(e0)), e1);
    var v2 := Visit(PD, SlotAt(vaddr, 2, TableBase(e1)), e2);
    WalkFromPDPT2M(vaddr, read, TableBase(e0), e1, e2);
    WalkFromPresent(vaddr, read, 0, base, e0);
    PrependTo2(v0, v1, v2);
  }

  /** The walk from a present PT entry is that entry and the 4 KiB page it
      maps. */
  lemma WalkFromPT4K(vaddr: Word, read: Reader, base: Word, e3: Word)
    requires (base & 0xFFF) == 0
    requires read(SlotAt(vaddr, 3, base)) == Some(e3) && Present(e3)
    ensures WalkFrom(vaddr, read, 3, base) ==
              Walk([Visit(PT, SlotAt(vaddr, 3, base), e3)], Translated(PhysAddress4K(e3, vaddr & Offset4KMask), Size4K))
  {
    WalkFromLeaf(vaddr, read, 3, base, e3);
  }

  /** The walk from a present PD entry without the page-size bit, over a
      present PT entry, is those two entries and the 4 KiB page. */
  lemma WalkFromPD4K(vaddr: Word, read: Reader, base: Word, e2: Word, e3: Word)
    requires (base & 0xFFF) == 0
    requires read(SlotAt(vaddr, 2, base)) == Some(e2) && Present(e2) && !PageSizeBit(e2)
    requires read(SlotAt(vaddr, 3, TableBase(e2))) == Some(e3) && Present(e3)
    ensures WalkFrom(vaddr, read, 2, base) ==
              Walk([Visit(PD, SlotAt(vaddr, 2, base), e2), Visit(PT, SlotAt(vaddr, 3, TableBase(e2)), e3)],
                   Translated(PhysAddress4K(e3, vaddr & Offset4KMask), Size4K))
  {
    var v2 := Visit(PD, SlotAt(vaddr, 2, base), e2);
    var v3 := Visit(PT, SlotAt(vaddr, 3, TableBase(e2)), e3);
    WalkFromPT4K(vaddr, read, TableBase(e2), e3);
    WalkFromPresent(vaddr, read, 2, base, e2);
    PrependTo1(v2, v3);
  }

  /** The walk from a present PDPT entry without the page-size bit, over a
      present PD entry without it and a present PT entry, is those three
      entries and the 4 KiB page. */
  lemma WalkFromPDPT4K(vaddr: Word, read: Reader, base: Word, e1: Word, e2: Word, e3: Word)
    requires (base & 0xFFF) == 0
    requires read(SlotAt(vaddr, 1, base)) == Some(e1) && Present(e1) && !PageSizeBit(e1)
    requires read(SlotAt(vaddr, 2, TableBase(e1))) == Some(e2) && Present(e2) && !PageSizeBit(e2)
    requires read(SlotAt(vaddr, 3, TableBase(e2))) == Some(e3) && Present(e3)
    ensures WalkFrom(vaddr, read, 1, base) ==
              Walk([Visit(PDPT, SlotAt(vaddr, 1, base), e1), Visit(PD, SlotAt(vaddr, 2, TableBase(e1)), e2),
                    Visit(PT, SlotAt(vaddr, 3, TableBase(e2)), e3)],
                   Translated(PhysAddress4K(e3, vaddr & Offset4KMask), Size4K))
  {
    var v1 := Visit(PDPT, SlotAt(vaddr, 1, base), e1);
    var v2 := Visit(PD, SlotAt(vaddr, 2, TableBase(e1)), e2);
    var v3 := Visit(PT, SlotAt(vaddr, 3, TableBase(e2)), e3);
    WalkFromPD4K(vaddr, read, TableBase(e1), e2, e3);
    WalkFromPresent(vaddr, read, 1, base, e1);
    PrependTo2(v1, v2, v3);
  }

  /** With all four entries present and neither the PDPT nor the PD entry
      mapping a huge page, the walk reads exactly those four entries and
      translates to the PT entry's frame plus the page offset. */
  lemma Walk4KPage(vaddr: Word, read: Reader, base: Word, e0: Word, e1: Word, e2: Word, e3: Word)
    requires (base & 0xFFF) == 0
    requires read(SlotAt(vaddr, 0, base)) == Some(e0) && Present(e0)
    requires read(SlotAt(vaddr, 1, TableBase(e0))) == Some(e1) && Present(e1) && !PageSizeBit(e1)
    requires read(SlotAt(vaddr, 2, TableBase(e1))) == Some(e2) && Present(e2) && !PageSizeBit(e2)
    requires read(SlotAt(vaddr, 3, TableBase(e2))) == Some(e3) && Present(e3)
    ensures WalkFrom(vaddr, read, 0, base) ==
              Walk([Visit(PML4, SlotAt(vaddr, 0, base), e0), Visit(PDPT, SlotAt(vaddr, 1, TableBase(e0)), e1),
                    Visit(PD, SlotAt(vaddr, 2, TableBase(e1)), e2), Visit(PT, SlotAt(vaddr, 3, TableBase(e2)), e3)],
                   Translated(PhysAddress4K(e3, vaddr & Offset4KMask), Size4K))
  {
    var v0 := Visit(PML4, SlotAt(vaddr, 0, base), e0);
    var v1 := Visit(PDPT, SlotAt(vaddr, 1, TableBase(e0)), e1);
    var v2 := Visit(PD, SlotAt(vaddr, 2, TableBase(e1)), e2);
    var v3 := Visit(PT, SlotAt(vaddr, 3, TableBase(e2)), e3);
    WalkFromPDPT4K(vaddr, read, TableBase(e0), e1, e2, e3);
    WalkFromPresent(vaddr, read, 0, base, e0);
    PrependTo3(v0, v1, v2, v3);
  }

  /** The 4 KiB case for the command itself: four readable entries in
      physical memory, all present and neither the PDPT nor the PD entry
      with its page-size bit set, give exactly those four records and the PT
      entry's frame plus the page offset. */
  lemma PtWalk4KPage(vaddr: Word, cr3: Word, mem: Memory, e0: Word, e1: Word, e2: Word, e3: Word)
    requires ReadEntry(mem, SlotAt(vaddr, 0, TableBase(cr3))) == Some(e0) && Present(e0)
    requires ReadEntry(mem, SlotAt(vaddr, 1, TableBase(e0))) == Some(e1) && Present(e1) && !PageSizeBit(e1)
    requires ReadEntry(mem, SlotAt(vaddr, 2, TableBase(e1))) == Some(e2) && Present(e2) && !PageSizeBit(e2)
    requires ReadEntry(mem, SlotAt(vaddr, 3, TableBase(e2))) == Some(e3) && Present(e3)
    ensures PtWalk(vaddr, cr3, mem) ==
              Walk([Visit(PML4, SlotAt(vaddr, 0, TableBase(cr3)), e0), Visit(PDPT, SlotAt(vaddr, 1, TableBase(e0)), e1),
                    Visit(PD, SlotAt(vaddr, 2, TableBase(e1)), e2), Visit(PT, SlotAt(vaddr, 3, TableBase(e2)), e3)],
                   Translated(PhysAddress4K(e3, vaddr & Offset4KMask), Size4K))
  {
    Walk4KPage(vaddr, EntryReader(mem), TableBase(cr3), e0, e1, e2, e3);
  }

  // ---------------------------------------------------------------------------
  // Only the slots the walk reads matter
  // ---------------------------------------------------------------------------

  /** The addresses a walk read, in order: one per record, then the address
      whose read failed, if the walk stopped on one. */
  function SlotsRead(w: Walk): (slots: seq<Word>)
    ensures |slots| == |w.trace| + (if w.outcome.ReadFailed? then 1 else 0)
    ensures forall i :: 0 <= i < |w.trace| ==> slots[i] == w.trace[i].entryAddr
    ensures w.outcome.ReadFailed? ==> slots[|w.trace|] == w.outcome.addr
  {
    seq(|w.trace|, i requires 0 <= i < |w.trace| => w.trace[i].entryAddr)
      + (if w.outcome.ReadFailed? then [w.outcome.addr] else [])
  }

  /** Records read through one reader are records read through any other
      that gives the same entries at their addresses. */
  lemma {:induction false} RecordsFrame(vaddr: Word, r1: Reader, r2: Reader, d: nat, base: Word, trace: seq<Visit>)
    requires Records(vaddr, r1, d, base, trace)
    requires forall i :: 0 <= i < |trace| ==> r1(trace[i].entryAddr) == r2(trace[i].entryAddr)
    ensures Records(vaddr, r2, d, base, trace)
    decreases |trace|
  {
    if |trace| > 0 {
      var rest := trace[1..];
      forall i | 0 <= i < |rest|
        ensures r1(rest[i].entryAddr) == r2(rest[i].entryAddr)
      {
        assert rest[i] == trace[i + 1];
      }
      RecordsFrame(vaddr, r1, r2, d + 1, TableBase(trace[0].entry), rest);
      RecordsFrameFirst(vaddr, r1, r2, d, base, trace);
    }
  }

  /** The first step of `RecordsFrame`: the first record carries over once
      the rest do. */
  lemma RecordsFrameFirst(vaddr: Word, r1: Reader, r2: Reader, d: nat, base: Word, trace: seq<Visit>)
    requires Records(vaddr, r1, d, base, trace) && |trace| > 0
    requires r1(trace[0].entryAddr) == r2(trace[0].entryAddr)
    requires Records(vaddr, r2, d + 1, TableBase(trace[0].entry), trace[1..])
    ensures Records(vaddr, r2, d, base, trace)
  {
  }

  /** A walk through one reader is a walk through any other that gives the
      same results at the slots it read. */
  lemma WalkFrame(vaddr: Word, r1: Reader, r2: Reader, d: nat, base: Word, w: Walk)
    requires IsWalk(vaddr, r1, d, base, w)
    requires forall a :: a in SlotsRead(w) ==> r1(a) == r2(a)
    ensures IsWalk(vaddr, r2, d, base, w)
  {
    var slots := SlotsRead(w);
    forall i | 0 <= i < |w.trace|
      ensures r1(w.trace[i].entryAddr) == r2(w.trace[i].entryAddr)
    {
      assert slots[i] in slots;
    }
    RecordsFrame(vaddr, r1, r2, d, base, w.trace);
    if w.outcome.ReadFailed? {
      assert slots[|w.trace|] in slots;
    }
  }

  /** The command's result depends only on the bytes of the slots it read:
      any memory that agrees with `m1` on those bytes, and on which of them
      can be read, gives the same walk. */
  lemma PtWalkFrame(vaddr: Word, cr3: Word, m1: Memory, m2: Memory)
    requires forall a :: a in SlotsRead(PtWalk(vaddr, cr3, m1)) ==> AgreeOn(m1, m2, a)
    ensures PtWalk(vaddr, cr3, m2) == PtWalk(vaddr, cr3, m1)
  {
    var w := PtWalk(vaddr, cr3, m1);
    forall a | a in SlotsRead(w)
      ensures EntryReader(m1)(a) == EntryReader(m2)(a)
    {
      ReadEntryFrame(m1, m2, a);
    }
    WalkFrame(vaddr, EntryReader(m1), EntryReader(m2), 0, TableBase(cr3), w);
    PtWalkUnique(vaddr, cr3, m2, w);
  }
}

