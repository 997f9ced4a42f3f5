/** The extended page table engine (ept.cpp). */
module EptEngine {
  import opened Paging
  import opened Wrappers

  import opened EptWalk
  import opened EptTree
  import opened EptPath
  import opened EptSplit
  import opened EptTypes
  import opened EptIdentity

  class Ept {
    /** epml4_: the frame of the top table, a part of the object itself. */
    const root: nat
    /** The frames that the allocator manages for this object. */
    const pool: set<nat>
    /** The memory type the MTRRs give to an address. */
    const mtrr: Pa -> MemoryType

    /** The live tables, and the frames the allocator may hand out. */
    var mem: Memory
    var free: set<nat>

    /** Which region each live table translates. */
    ghost var dir: Directory

    ghost predicate Valid()
      reads this
    {
      && WellFormed(mem, root, dir)
      && Conserved(mem, free, pool, root)
    }

    /** ept_t(): every entry of the PML4 is zero. */
    constructor (root: nat, pool: set<nat>, mtrr: Pa -> MemoryType)
      requires 0 < root < FRAME_LIMIT && root !in pool
      requires forall f :: f in pool ==> 0 < f < FRAME_LIMIT
      ensures Valid()
      ensures this.root == root && this.pool == pool && this.mtrr == mtrr
      ensures free == pool && dir == map[ROOT := root]
      ensures forall p: Pa :: Translate(mem, root, p) == NotPresent
    {
      this.root := root;
      this.pool := pool;
      this.mtrr := mtrr;
      this.mem := map[root := EmptyTable()];
      this.free := pool;
      this.dir := map[ROOT := root];
    }

    /** Get or create the next level of the hierarchy, below entry `i` of the table in frame `f`. */
    method MapSubtable(f: nat, i: nat, ghost n: Node) returns (c: nat)
      requires Valid() && n in dir && dir[n] == f && i < 512 && 1 <= n.level <= 3
      requires f in mem && !mem[f][i].large
      requires Child(n, i) in dir || |free| >= 1
      modifies this
      ensures Valid()
      ensures Extended(old(mem), old(dir), mem, dir, root, n, i, c)
      ensures SameTypes(old(mem), mem, root)
      ensures |free| == old(|free|) - (if Child(n, i) in old(dir) then 0 else 1)
    {
      EntryFacts(mem, root, dir, n, i);
      if mem[f][i].Present() {
        return mem[f][i].pfn;
      }
      c :| c in free;
      var entry := mem[f][i].Update(c * 0x1000, READ_WRITE_EXECUTE);
      ExtendedByNewTable(mem, root, dir, n, i, entry, c, free, pool);
      AddTableType(mem, root, dir, n, i, entry, c);
      free := free - {c};
      mem := mem[c := EmptyTable()];
      mem := SetEntry(mem, f, i, entry);
      dir := dir[Child(n, i) := c];
    }

    method MapPt(g: Pa, h: Pa, pt: nat, a: Access, level: nat) returns (r: Slot)
      requires Valid() && level == PT && a != NONE
      requires NodeOf(g, 0) in dir && dir[NodeOf(g, 0)] == pt
      modifies this`mem
      ensures Valid() && r == Slot(pt, 0, Offset(g, 0))
      ensures MapPost(old(mem), dir, mem, dir, root, g, h, a, level, 0)
      ensures TypeMapped(old(mem), mem, root, g, mtrr(g), 0)
    {
      var i := Offset(g, 0);
      var entry := mem[pt][i].UpdateTyped(h, mtrr(g), a);
      MapLeaf(mem, root, dir, g, h, a, 0, entry);
      MapLeafType(mem, root, dir, g, 0, entry);
      mem := SetEntry(mem, pt, i, entry);
      return Slot(pt, 0, i);
    }

    method MapPd(g: Pa, h: Pa, pd: nat, a: Access, level: nat) returns (r: Slot)
      requires Valid() && level <= 1 && a != NONE
      requires NodeOf(g, 1) in dir && dir[NodeOf(g, 1)] == pd
      requires NoLargeAbove(mem, dir, g, level, 1)
      requires level > 0 ==> NodeOf(g, level - 1) !in dir
      requires Missing(dir, g, level, 1) <= |free|
      modifies this
      ensures Valid()
      ensures NodeOf(g, level) in dir && r == Slot(dir[NodeOf(g, level)], level, Offset(g, level))
      ensures MapPost(old(mem), old(dir), mem, dir, root, g, h, a, level, 1)
      ensures TypeMapped(old(mem), mem, root, g, mtrr(g), level)
      ensures |free| == old(|free| - Missing(dir, g, level, 1))
    {
      var i := Offset(g, 1);
      if level == PD {
        var entry := mem[pd][i].UpdateLarge(h, mtrr(g), true, a);
        MapLeaf(mem, root, dir, g, h, a, 1, entry);
        MapLeafType(mem, root, dir, g, 1, entry);
        mem := SetEntry(mem, pd, i, entry);
        return Slot(pd, 1, i);
      }
      NextEntry(mem, root, dir, g, level, 1);
      var pt := MapSubtable(pd, i, NodeOf(g, 1));
      Descend(old(mem), old(dir), mem, dir, root, g, level, 1, pt);
      ghost var m1, d1 := mem, dir;
      r := MapPt(g, h, pt, a, level);
      MapPostStep(old(mem), old(dir), m1, d1, mem, dir, root, g, h, a, level, 1, pt);
    }

    method MapPdpt(g: Pa, h: Pa, pdpt: nat, a: Access, level: nat) returns (r: Slot)
      requires Valid() && level <= 2 && a != NONE
      requires NodeOf(g, 2) in dir && dir[NodeOf(g, 2)] == pdpt
      requires NoLargeAbove(mem, dir, g, level, 2)
      requires level > 0 ==> NodeOf(g, level - 1) !in dir
      requires Missing(dir, g, level, 2) <= |free|
      modifies this
      ensures Valid()
      ensures NodeOf(g, level) in dir && r == Slot(dir[NodeOf(g, level)], level, Offset(g, level))
      ensures MapPost(old(mem), old(dir), mem, dir, root, g, h, a, level, 2)
      ensures TypeMapped(old(mem), mem, root, g, mtrr(g), level)
      ensures |free| == old(|free| - Missing(dir, g, level, 2))
    {
      hide WellFormed, MapPost, NoLargeAbove, Extended;
      var i := Offset(g, 2);
      EntryFacts(mem, root, dir, NodeOf(g, 2), i);
      if level == PDPT {
        var entry := mem[pdpt][i].UpdateLarge(h, mtrr(g), true, a);
        MapLeaf(mem, root, dir, g, h, a, 2, entry);
        MapLeafType(mem, root, dir, g, 2, entry);
        mem := SetEntry(mem, pdpt, i, entry);
        return Slot(pdpt, 2, i);
      }
      NextEntry(mem, root, dir, g, level, 2);
      var pd := MapSubtable(pdpt, i, NodeOf(g, 2));
      Descend(old(mem), old(dir), mem, dir, root, g, level, 2, pd);
      ghost var m1, d1 := mem, dir;
      r := MapPd(g, h, pd, a, level);
      MapPostStep(old(mem), old(dir), m1, d1, mem, dir, root, g, h, a, level, 2, pd);
    }

    method MapPml4(g: Pa, h: Pa, pml4: nat, a: Access, level: nat) returns (r: Slot)
      requires Valid() && level <= 2 && a != NONE
      requires NodeOf(g, 3) in dir && dir[NodeOf(g, 3)] == pml4
      requires NoLargeAbove(mem, dir, g, level, 2)
      requires level > 0 ==> NodeOf(g, level - 1) !in dir
      requires Missing(dir, g, level, 3) <= |free|
      modifies this
      ensures Valid()
      ensures NodeOf(g, level) in dir && r == Slot(dir[NodeOf(g, level)], level, Offset(g, level))
      ensures MapPost(old(mem), old(dir), mem, dir, root, g, h, a, level, 3)
      ensures TypeMapped(old(mem), mem, root, g, mtrr(g), level)
      ensures |free| == old(|free| - Missing(dir, g, level, 3))
    {
      var i := Offset(g, 3);
      NextEntry(mem, root, dir, g, level, 3);
      var pdpt := MapSubtable(pml4, i, NodeOf(g, 3));
      Descend(old(mem), old(dir), mem, dir, root, g, level, 3, pdpt);
      ghost var m1, d1 := mem, dir;
      r := MapPdpt(g, h, pdpt, a, level);
      MapPostStep(old(mem), old(dir), m1, d1, mem, dir, root, g, h, a, level, 3, pdpt);
    }

    /** map(): a flat update of the translation of one page. */
    method Map(g: Pa, h: Pa, a: Access, level: nat) returns (r: Slot)
      requires Valid() && level <= 2 && a != NONE
      requires NoLargeAbove(mem, dir, g, level, 2)
      requires level > 0 ==> NodeOf(g, level - 1) !in dir
      requires Missing(dir, g, level, 2) <= |free|
      modifies this
      ensures Valid()
      ensures MapPost(old(mem), old(dir), mem, dir, root, g, h, a, level, 2)
      ensures TypeMapped(old(mem), mem, root, g, mtrr(g), level)
      ensures NodeOf(g, level) in dir && r == Slot(dir[NodeOf(g, level)], level, Offset(g, level))
      ensures |free| == old(|free| - Missing(dir, g, level, 2))
    {
      RootCovers(g);
      r := MapPml4(g, h, root, a, level);
      MapPostRoot(old(mem), old(dir), mem, dir, root, g, h, a, level);
    }

    /** Unmap each of the 512 entries of the table in frame `f`. */
    method UnmapTable(f: nat, level: nat, ghost n: Node)
      requires Valid() && n in dir && dir[n] == f && level == n.level && level != PT
      modifies this
      ensures Valid() && n.level <= 3
      ensures Cut(old(mem), old(dir), mem, dir, root, n, 0, 512)
      ensures old(free) <= free
      decreases level, 1
    {
      CutNothing(mem, root, dir, n, 0);
      for i := 0 to 512
        invariant Valid() && n.level <= 3
        invariant Cut(old(mem), old(dir), mem, dir, root, n, 0, i)
        invariant old(free) <= free
      {
        ghost var m1, d1 := mem, dir;
        UnmapEntry(f, i, level, n);
        CutCompose(old(mem), old(dir), m1, d1, mem, dir, root, n, 0, i, i + 1);
      }
    }

    /** delete[]: the frame must be live. */
    method DeleteTable(c: nat)
      requires c in mem && c != root && c !in free
      modifies this`mem, this`free
      ensures mem == old(mem) - {c} && free == old(free) + {c}
    {
      mem := mem - {c};
      free := free + {c};
    }

    /** Unmap and delete the table below entry `i`; the entry itself still has to be cleared. */
    method DeleteSubtable(f: nat, i: nat, subtable: nat, level: nat, ghost n: Node)
      requires Valid() && n in dir && dir[n] == f && level == n.level && i < 512 && level != PT
      requires f in mem && IsPointer(mem[f][i], level) && mem[f][i].pfn == subtable
      modifies this
      ensures n.level <= 3 && f in mem
      ensures WellFormed(SetEntry(mem, f, i, CLEARED), root, dir)
      ensures Conserved(SetEntry(mem, f, i, CLEARED), free, pool, root)
      ensures Cut(old(mem), old(dir), SetEntry(mem, f, i, CLEARED), dir, root, n, i, i + 1)
      ensures old(free) <= free
      decreases level, 0, 0
    {
      EntryFacts(mem, root, dir, n, i);
      assert subtable != 0;
      ghost var k := Child(n, i);
      if level != PD {
        UnmapTable(subtable, level - 1, k);
        CutIsHollow(old(mem), old(dir), mem, dir, root, k);
      } else {
        PtIsHollow(mem, root, dir, k);
      }
      CutPointer(old(mem), old(dir), mem, dir, root, n, i);
      ConservedRemove(mem, free, pool, root, subtable, f, i);
      DeleteTable(subtable);
      dir := dir - {k};
    }

    /** Unmap entry `i` of the table in frame `f`; the tables below it are deleted. */
    method UnmapEntry(f: nat, i: nat, level: nat, ghost n: Node)
      requires Valid() && n in dir && dir[n] == f && i < 512 && n.level != PT
      requires f in mem && (level == n.level || mem[f][i].large)
      modifies this
      ensures Valid() && n.level <= 3
      ensures Cut(old(mem), old(dir), mem, dir, root, n, i, i + 1)
      ensures f in mem && mem[f][i] == Entry(NONE, Uncacheable, false, 0)
      ensures old(free) <= free
      ensures old(!IsPointer(mem[f][i], n.level)) ==> free == old(free)
      decreases level, 0, 1
    {
      EntryFacts(mem, root, dir, n, i);
      var entry := mem[f][i];
      if !entry.Present() {
        CutLeaf(mem, root, dir, n, i);
        assert mem[f] == mem[f][i := CLEARED];
        return;
      }
      if entry.large {
        CutLeaf(mem, root, dir, n, i);
      } else {
        DeleteSubtable(f, i, entry.pfn, level, n);
      }
      mem := SetEntry(mem, f, i, CLEARED);
    }

    /** ~ept_t() */
    method Teardown()
      requires Valid()
      modifies this
      ensures Valid()
      ensures mem == map[root := EmptyTable()] && free == pool
      ensures forall p: Pa :: Translate(mem, root, p) == NotPresent
    {
      UnmapTable(root, PML4, ROOT);
      OnlyRootLeft(old(mem), old(dir), mem, dir, root);
      assert free == pool;
      assert mem[root] == EmptyTable();
    }

    /** The loop of split over the 512 pages. */
    method MapSubPages(g: Pa, h: Pa, a: Access, from: nat, ghost s: nat, ghost m0: Memory, ghost d0: Directory)
      requires Valid() && 1 <= from <= s <= 2 && a != NONE
      requires g % Span(from) == 0 && g + Span(from) <= ADDRESS_LIMIT && h + Span(from) <= ADDRESS_LIMIT
      requires WellFormed(m0, root, d0) && NodeOf(g, s) in d0 && d0[NodeOf(g, s)] in m0
      requires !IsPointer(m0[d0[NodeOf(g, s)]][Offset(g, s)], s)
      requires SplitUpTo(m0, d0, mem, dir, root, g, h, a, from, s, 0) && ClearAt(mem, dir, g, s)
      requires TypesSplit(m0, mem, root, mtrr, g, from, s, 0)
      requires |free| >= s - from + 1
      modifies this
      ensures Valid() && SplitUpTo(m0, d0, mem, dir, root, g, h, a, from, s, 512)
      ensures TypesSplit(m0, mem, root, mtrr, g, from, s, 512)
      ensures |free| == old(|free|) - (s - from + 1)
    {
      hide WellFormed, SplitUpTo, TypesSplit, TypeMapped, MapPost, NoLargeAbove, Missing, ClearAt;
      for i := 0 to 512
        invariant Valid()
        invariant SplitUpTo(m0, d0, mem, dir, root, g, h, a, from, s, i)
        invariant TypesSplit(m0, mem, root, mtrr, g, from, s, i)
        invariant i == 0 ==> ClearAt(mem, dir, g, s)
        invariant |free| == old(|free|) - (if i == 0 then 0 else s - from + 1)
      {
        SplitReady(m0, d0, mem, dir, root, g, h, a, from, s, i);
        ghost var m1, d1 := mem, dir;
        var r := Map(SubPage(g, i, from), SubPage(h, i, from), a, from - 1);
        SplitStep(m0, d0, m1, d1, mem, dir, root, g, h, a, from, s, i);
        SplitTypesStep(m0, m1, mem, root, mtrr, g, from, s, i);
      }
    }

    /** split(): a large page becomes 512 pages of the next lower level; an entry that is not large is left alone. */
    method Split(g: Pa, h: Pa, a: Access, from: nat)
      requires Valid() && 1 <= from <= 2 && a != NONE
      requires g % Span(from) == 0 && g + Span(from) <= ADDRESS_LIMIT && h + Span(from) <= ADDRESS_LIMIT
      requires EptEntry(mem, root, g, from).Some?
      requires var s := EptEntry(mem, root, g, from).value;
               s.frame in mem && s.index < 512 && (mem[s.frame][s.index].large ==> |free| >= s.level - from + 1)
      modifies this
      ensures Valid()
      ensures var s := old(EptEntry(mem, root, g, from)).value;
              if old(s.frame in mem && s.index < 512 && mem[s.frame][s.index].large)
              then from <= s.level <= 2 && SplitUpTo(old(mem), old(dir), mem, dir, root, g, h, a, from, s.level, 512)
                   && TypesSplit(old(mem), mem, root, mtrr, g, from, s.level, 512)
                   && |free| == old(|free|) - (s.level - from + 1)
              else mem == old(mem) && dir == old(dir) && free == old(free)
    {
      EptEntryAgreesWithWalk(mem, root, dir, g, from);
      hide WellFormed, SplitUpTo, TypesSplit, Cut, ClearAt, EptEntry;
      var slot := EptEntry(mem, root, g, from).value;
      if !mem[slot.frame][slot.index].large {
        return;
      }
      EntryStep(mem, root, dir, g, slot.level);
      UnmapEntry(slot.frame, slot.index, from, NodeOf(g, slot.level));
      SplitStart(old(mem), old(dir), mem, dir, root, g, h, a, from, slot.level);
      SplitTypesStart(old(mem), old(dir), mem, dir, root, mtrr, g, from, slot.level);
      MapSubPages(g, h, a, from, slot.level, old(mem), old(dir));
    }

    /** join(): the 512 pages below an entry become one large page; an entry that is large is left alone. */
    method Join(g: Pa, h: Pa, a: Access, to: nat)
      requires Valid() && 1 <= to <= 2 && a != NONE && g % Span(to) == 0
      requires EptEntry(mem, root, g, to).Some?
      modifies this
      ensures Valid()
      ensures var s := old(EptEntry(mem, root, g, to)).value;
              if old(s.frame in mem && s.index < 512 && mem[s.frame][s.index].large)
              then mem == old(mem) && dir == old(dir) && free == old(free)
              else JoinPost(old(mem), old(dir), mem, dir, root, g, h, a, to)
                   && TypeMapped(old(mem), mem, root, g, mtrr(g), to)
    {
      EptEntryAgreesWithWalk(mem, root, dir, g, to);
      var slot := EptEntry(mem, root, g, to).value;
      if mem[slot.frame][slot.index].large {
        return;
      }
      UnmapEntry(slot.frame, slot.index, to, NodeOf(g, to));
      JoinReady(old(mem), old(dir), mem, dir, root, g, to);
      ghost var m1, d1 := mem, dir;
      var r := Map(g, h, a, to);
      JoinDone(old(mem), old(dir), m1, d1, mem, dir, root, g, h, a, to);
      JoinTypes(old(mem), old(dir), m1, d1, mem, root, g, mtrr(g), to);
    }

    /** map_identity(): the first 512GB are mapped to themselves with 2MB pages, in 513 tables. */
    method MapIdentity(a: Access)
      requires Valid() && dir.Keys == {ROOT} && a != NONE
      requires |free| >= IDENTITY_TABLES
      modifies this
      ensures Valid()
      ensures forall p: Pa ::
                Translate(mem, root, p) == if p < IDENTITY_LIMIT then IdentityOutcome(a, p) else NotPresent
      ensures !(a.write && !a.read) ==>
                forall p: Pa :: Translate(mem, root, p) == if p < 0x80_0000_0000 then Mapped(p, a) else NotPresent
      ensures forall p: Pa ::
                TypeAt(mem, root, p) == if p < 0x80_0000_0000 then Some(mtrr(LargePageOf(p))) else None
      ensures IdentityTables(dir, IDENTITY_PAGES)
      ensures |free| == old(|free|) - 513
    {
      hide WellFormed, Conserved, MapPost, TypeMapped, TypedByLargePage, TypeAt, Translate, NoLargeAbove, Missing;
      hide IdentityTables, IdentityUpTo, IdentityOutcome, LargePageOf;
      IdentityStarts(mem, root, dir, mtrr, a);
      var pa := 0;
      ghost var k := 0;
      while pa < IDENTITY_LIMIT
        invariant Valid() && pa == k * 0x20_0000 && k <= IDENTITY_PAGES
        invariant IdentityTables(dir, k) && IdentityUpTo(mem, root, a, k) && TypedByLargePage(mem, root, mtrr)
        invariant |free| == old(|free|) - TablesNeeded(k)
        decreases IDENTITY_PAGES - k
      {
        IdentityReady(mem, root, dir, a, k);
        ghost var m1, d1 := mem, dir;
        var r := Map(pa, pa, a, PD);
        IdentityStep(m1, d1, mem, dir, root, a, k);
        LargePageTyped(m1, d1, mem, dir, root, mtrr, pa, a);
        pa := pa + 0x20_0000;
        k := k + 1;
      }
      IdentityEnds(mem, root, mtrr, a);
    }

    /** map_identity_sparse(): the 2MB pages of every range are mapped to themselves.  `tables` is any set of regions
        that has room for the path of each of these pages. */
    method MapIdentitySparse(ranges: seq<Range>, a: Access, ghost tables: set<Node>)
      requires Valid() && dir.Keys == {ROOT} && a != NONE
      requires forall j :: 0 <= j < |ranges| ==> ranges[j].Fits()
      requires Room(ranges, tables) && |tables| <= |free| + 1
      modifies this
      ensures Valid()
      ensures forall p: Pa :: Translate(mem, root, p) ==
                              if Touched(ranges, |ranges|, PageNumber(p, 1)) then IdentityOutcome(a, p) else NotPresent
      ensures forall p: Pa :: TypeAt(mem, root, p) ==
                              if Translate(mem, root, p) == NotPresent then None else Some(mtrr(LargePageOf(p)))
    {
      hide WellFormed, Conserved, SparseTyped, MapPost, NoLargeAbove, Missing, Touched, Room, TypeMapped, TypeAt;
      hide Translate, IdentityOutcome, LargePageOf;
      SparseTypedStart(mem, root, dir, mtrr, a, ranges, tables, |free|);
      for j := 0 to |ranges|
        invariant Valid() && SparseTyped(mem, root, dir, mtrr, a, ranges, j, StartOf(ranges, j), tables, |free|)
      {
        var pa := PageAlign(ranges[j].begin, 1);
        var to := PageAlignUp(ranges[j].end, 1);
        while pa < to
          invariant Valid() && PageAlign(ranges[j].begin, 1) <= pa && pa % 0x20_0000 == 0
          invariant SparseTyped(mem, root, dir, mtrr, a, ranges, j, pa, tables, |free|)
        {
          SparseTypedReady(mem, root, dir, mtrr, a, ranges, j, pa, tables, |free|);
          ghost var m1, d1, f1 := mem, dir, |free|;
          var r := Map(pa, pa, a, PD);
          SparseTypedDone(m1, d1, mem, dir, root, mtrr, a, ranges, j, pa, tables, f1, |free|);
          pa := pa + 0x20_0000;
        }
        SparseTypedNext(mem, root, dir, mtrr, a, ranges, j, pa, tables, |free|);
      }
      SparseTypedEnd(mem, root, dir, mtrr, a, ranges, tables, |free|);
    }
  }
}
