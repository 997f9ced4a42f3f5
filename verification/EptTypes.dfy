/** What the operations on the tables do to the memory type of every address. */
module EptTypes {
  import opened Paging
  import opened Wrappers

  import opened EptIdentity
  import opened EptPath
  import opened EptSplit
  import opened EptTree
  import opened EptWalk

  ghost predicate SameTypes(m0: Memory, m1: Memory, root: nat) {
    forall p: Pa :: TypeAt(m1, root, p) == TypeAt(m0, root, p)
  }

  /** The page of `g` has memory type `t`, and every other address has the type it had. */
  ghost predicate TypeMapped(m0: Memory, m1: Memory, root: nat, g: Pa, t: MemoryType, level: nat)
    requires level <= 2
  {
    forall p: Pa :: TypeAt(m1, root, p) == if SamePage(p, g, level) then Some(t) else TypeAt(m0, root, p)
  }

  // -------- Elementary changes

  lemma {:induction false} TypeReaches(mem: Memory, root: nat, dir: Directory, p: Pa, l: nat)
    requires WellFormed(mem, root, dir) && l <= 3 && NodeOf(p, l) in dir
    ensures TypeAt(mem, root, p) == TypeWalk(mem, dir[NodeOf(p, l)], l, p)
    decreases 3 - l
  {
    if l == 3 {
      RootCovers(p);
    } else {
      NodeOfChild(p, l + 1);
      var up := NodeOf(p, l + 1);
      assert Listed(mem, dir, NodeOf(p, l)) && NodeOf(p, l) != ROOT;
      assert up in dir;
      assert EntryOk(mem, dir, up, Offset(p, l + 1));
      TypeReaches(mem, root, dir, p, l + 1);
    }
  }

  lemma {:induction false} TypeWalkLocal(mem: Memory, mem': Memory, root: nat, dir: Directory, p: Pa, l: nat)
    requires WellFormed(mem, root, dir) && l <= 3 && NodeOf(p, l) in dir
    requires forall k :: 0 <= k <= l && NodeOf(p, k) in dir ==>
      dir[NodeOf(p, k)] in mem' && mem'[dir[NodeOf(p, k)]][Offset(p, k)] == mem[dir[NodeOf(p, k)]][Offset(p, k)]
    ensures TypeWalk(mem', dir[NodeOf(p, l)], l, p) == TypeWalk(mem, dir[NodeOf(p, l)], l, p)
    decreases l
  {
    var n := NodeOf(p, l);
    assert EntryOk(mem, dir, n, Offset(p, l));
    var e := mem[dir[n]][Offset(p, l)];
    if IsPointer(e, l) {
      NodeOfChild(p, l);
      TypeWalkLocal(mem, mem', root, dir, p, l - 1);
    }
  }

  lemma TypeLocal(mem: Memory, mem': Memory, root: nat, dir: Directory, p: Pa)
    requires WellFormed(mem, root, dir)
    requires forall k :: 0 <= k <= 3 && NodeOf(p, k) in dir ==>
      dir[NodeOf(p, k)] in mem' && mem'[dir[NodeOf(p, k)]][Offset(p, k)] == mem[dir[NodeOf(p, k)]][Offset(p, k)]
    ensures TypeAt(mem', root, p) == TypeAt(mem, root, p)
  {
    RootCovers(p);
    TypeWalkLocal(mem, mem', root, dir, p, 3);
  }

  lemma SetEntryType(mem: Memory, root: nat, dir: Directory, n: Node, i: nat, e: Entry, p: Pa)
    requires WellFormed(mem, root, dir) && n in dir && i < 512
    requires NodeOf(p, n.level) != n || Offset(p, n.level) != i
    ensures TypeAt(SetEntry(mem, dir[n], i, e), root, p) == TypeAt(mem, root, p)
  {
    assert Listed(mem, dir, n);
    var mem' := SetEntry(mem, dir[n], i, e);
    forall k | 0 <= k <= 3 && NodeOf(p, k) in dir
      ensures dir[NodeOf(p, k)] in mem'
      ensures mem'[dir[NodeOf(p, k)]][Offset(p, k)] == mem[dir[NodeOf(p, k)]][Offset(p, k)]
    {
      assert Listed(mem, dir, NodeOf(p, k));
    }
    TypeLocal(mem, mem', root, dir, p);
  }

  /** A leaf on the path of `g` gives its memory type to the page of `g`. */
  lemma MapLeafType(mem: Memory, root: nat, dir: Directory, g: Pa, l: nat, e: Entry)
    requires WellFormed(mem, root, dir) && l <= 2 && NodeOf(g, l) in dir
    requires l > 0 ==> NodeOf(g, l - 1) !in dir
    requires e.Present() && e.pfn < FRAME_LIMIT && (l > 0 ==> e.large)
    ensures dir[NodeOf(g, l)] in mem
    ensures TypeMapped(mem, SetEntry(mem, dir[NodeOf(g, l)], Offset(g, l), e), root, g, e.memoryType, l)
  {
    var n, i := NodeOf(g, l), Offset(g, l);
    assert Listed(mem, dir, n);
    if l > 0 { NodeOfChild(g, l); }
    SetLeafWellFormed(mem, root, dir, n, i, e);
    forall p: Pa
      ensures TypeAt(SetEntry(mem, dir[n], i, e), root, p) ==
              if SamePage(p, g, l) then Some(e.memoryType) else TypeAt(mem, root, p)
    {
      SamePageIndices(p, g, l);
      if SamePage(p, g, l) {
        TypeReaches(SetEntry(mem, dir[n], i, e), root, dir, p, l);
      } else {
        SetEntryType(mem, root, dir, n, i, e, p);
      }
    }
  }

  lemma AddTableType(mem: Memory, root: nat, dir: Directory, n: Node, i: nat, e: Entry, c: nat)
    requires WellFormed(mem, root, dir) && n in dir && i < 512
    requires 1 <= n.level <= 3 && !mem[dir[n]][i].Present()
    requires c !in mem && 0 < c < FRAME_LIMIT
    requires e.access == READ_WRITE_EXECUTE && !e.large && e.pfn == c
    ensures SameTypes(mem, AddTable(mem, dir[n], i, e, c), root)
  {
    var mem' := AddTable(mem, dir[n], i, e, c);
    var k := Child(n, i);
    AddTableWellFormed(mem, root, dir, n, i, e, c);
    forall p: Pa ensures TypeAt(mem', root, p) == TypeAt(mem, root, p) {
      if NodeOf(p, n.level) == n && Offset(p, n.level) == i {
        NodeOfChild(p, n.level);
        TypeReaches(mem, root, dir, p, n.level);
        TypeReaches(mem', root, dir[k := c], p, k.level);
      } else {
        forall l | 0 <= l <= 3 && NodeOf(p, l) in dir
          ensures dir[NodeOf(p, l)] in mem'
          ensures mem'[dir[NodeOf(p, l)]][Offset(p, l)] == mem[dir[NodeOf(p, l)]][Offset(p, l)]
        {
          assert Listed(mem, dir, NodeOf(p, l));
        }
        TypeLocal(mem, mem', root, dir, p);
      }
    }
  }

  /** Unmapped entries have no memory type, and the type of every other address stays. */
  lemma CutType(m0: Memory, d0: Directory, m1: Memory, d1: Directory, root: nat, n: Node, lo: nat, hi: nat, p: Pa)
    requires n.level <= 3 && WellFormed(m1, root, d1) && Cut(m0, d0, m1, d1, root, n, lo, hi)
    ensures TypeAt(m1, root, p) ==
            if NodeOf(p, n.level) == n && lo <= Offset(p, n.level) < hi then None else TypeAt(m0, root, p)
  {
    hide Walk, Translate;
    if NodeOf(p, n.level) == n && lo <= Offset(p, n.level) < hi {
      TypeReaches(m1, root, d1, p, n.level);
    } else {
      forall k | 0 <= k <= 3 && NodeOf(p, k) in d1
        ensures d1[NodeOf(p, k)] in m0
        ensures m0[d1[NodeOf(p, k)]][Offset(p, k)] == m1[d1[NodeOf(p, k)]][Offset(p, k)]
      {
        assert Listed(m1, d1, NodeOf(p, k));
      }
      TypeLocal(m1, m0, root, d1, p);
    }
  }

  // -------- Split and join

  /** After `i` of the 512 small pages are mapped: each of them has the memory type of its own address, the rest of the
      large page has none, and every other address has the type it had. */
  ghost predicate TypesSplit(m0: Memory, m1: Memory, root: nat, mtrr: Pa -> MemoryType, g: Pa, from: nat, s: nat,
                             i: nat)
    requires 1 <= from <= s <= 2 && g + Span(from) <= ADDRESS_LIMIT
  {
    forall p: Pa :: TypeAt(m1, root, p) ==
      if SamePage(p, g, from) && Offset(p, from - 1) < i then Some(mtrr(SubPage(g, Offset(p, from - 1), from)))
      else if SamePage(p, g, s) then None
      else TypeAt(m0, root, p)
  }

  lemma SplitTypesStart(m0: Memory, d0: Directory, m1: Memory, d1: Directory, root: nat, mtrr: Pa -> MemoryType, g: Pa,
                        from: nat, s: nat)
    requires 1 <= from <= s <= 2 && g + Span(from) <= ADDRESS_LIMIT && WellFormed(m1, root, d1)
    requires Cut(m0, d0, m1, d1, root, NodeOf(g, s), Offset(g, s), Offset(g, s) + 1)
    ensures TypesSplit(m0, m1, root, mtrr, g, from, s, 0)
  {
    hide WellFormed, Cut, TypeAt;
    forall p: Pa ensures TypeAt(m1, root, p) == if SamePage(p, g, s) then None else TypeAt(m0, root, p) {
      SamePageIndices(p, g, s);
      CutType(m0, d0, m1, d1, root, NodeOf(g, s), Offset(g, s), Offset(g, s) + 1, p);
    }
  }

  lemma SplitTypesStep(m0: Memory, m1: Memory, m2: Memory, root: nat, mtrr: Pa -> MemoryType, g: Pa, from: nat, s: nat,
                       i: nat)
    requires 1 <= from <= s <= 2 && g % Span(from) == 0 && g + Span(from) <= ADDRESS_LIMIT && i < 512
    requires TypesSplit(m0, m1, root, mtrr, g, from, s, i)
    requires TypeMapped(m1, m2, root, SubPage(g, i, from), mtrr(SubPage(g, i, from)), from - 1)
    ensures TypesSplit(m0, m2, root, mtrr, g, from, s, i + 1)
  {
    hide TypeAt, SubPage;
    forall p: Pa
      ensures SamePage(p, SubPage(g, i, from), from - 1) <==> SamePage(p, g, from) && Offset(p, from - 1) == i
    {
      SubPageNumber(g, i, from, p);
    }
  }

  lemma JoinTypes(m0: Memory, d0: Directory, m1: Memory, d1: Directory, m2: Memory, root: nat, g: Pa, t: MemoryType,
                  to: nat)
    requires 1 <= to <= 2 && WellFormed(m1, root, d1)
    requires Cut(m0, d0, m1, d1, root, NodeOf(g, to), Offset(g, to), Offset(g, to) + 1)
    requires TypeMapped(m1, m2, root, g, t, to)
    ensures TypeMapped(m0, m2, root, g, t, to)
  {
    hide WellFormed, Cut, TypeAt;
    forall p: Pa
      ensures TypeAt(m2, root, p) == if SamePage(p, g, to) then Some(t) else TypeAt(m0, root, p)
    {
      SamePageIndices(p, g, to);
      CutType(m0, d0, m1, d1, root, NodeOf(g, to), Offset(g, to), Offset(g, to) + 1, p);
    }
  }

  // -------- Identity mapping

  /** The 2MB page of an address. */
  function LargePageOf(p: Pa): (g: Pa)
    ensures g % 0x20_0000 == 0 && g <= p < g + 0x20_0000
  {
    p / 0x20_0000 * 0x20_0000
  }

  /** Whatever translates has the memory type of its 2MB page, and nothing else has one. */
  ghost predicate TypedByLargePage(mem: Memory, root: nat, mtrr: Pa -> MemoryType) {
    forall p: Pa :: TypeAt(mem, root, p) ==
                    if Translate(mem, root, p) == NotPresent then None else Some(mtrr(LargePageOf(p)))
  }

  lemma EmptyTypes(mem: Memory, root: nat, dir: Directory, mtrr: Pa -> MemoryType)
    requires WellFormed(mem, root, dir) && dir.Keys == {ROOT}
    ensures TypedByLargePage(mem, root, mtrr)
  {
    forall p: Pa ensures Translate(mem, root, p) == NotPresent && TypeAt(mem, root, p) == None {
      RootCovers(p);
      assert NodeOf(p, 2) !in dir.Keys;
      EntryStep(mem, root, dir, p, 3);
      assert !IsLeaf(mem[dir[ROOT]][Offset(p, 3)], 3);
    }
  }

  lemma LargePageTyped(m0: Memory, d0: Directory, m1: Memory, d1: Directory, root: nat, mtrr: Pa -> MemoryType, g: Pa,
                       a: Access)
    requires g % 0x20_0000 == 0 && TypedByLargePage(m0, root, mtrr)
    requires MapPost(m0, d0, m1, d1, root, g, g, a, 1, 2) && TypeMapped(m0, m1, root, g, mtrr(g), 1)
    ensures TypedByLargePage(m1, root, mtrr)
  {
    hide TypeAt, Translate, OnPath;
    forall p: Pa | SamePage(p, g, 1) ensures LargePageOf(p) == g {
      PageNumberIsQuotient(p, 1);
      PageNumberIsQuotient(g, 1);
    }
  }

  lemma IdentityStarts(mem: Memory, root: nat, dir: Directory, mtrr: Pa -> MemoryType, a: Access)
    requires WellFormed(mem, root, dir) && dir.Keys == {ROOT}
    ensures IdentityTables(dir, 0) && IdentityUpTo(mem, root, a, 0) && TypedByLargePage(mem, root, mtrr)
  {
    EmptyTree(mem, root, dir);
    EmptyTypes(mem, root, dir, mtrr);
    assert forall n :: n in dir <==> n in {ROOT};
  }

  /** The identity mapping of all pages, in numbers. */
  lemma IdentityEnds(mem: Memory, root: nat, mtrr: Pa -> MemoryType, a: Access)
    requires IdentityUpTo(mem, root, a, IDENTITY_PAGES) && TypedByLargePage(mem, root, mtrr)
    ensures forall p: Pa ::
              Translate(mem, root, p) == if p < IDENTITY_LIMIT then IdentityOutcome(a, p) else NotPresent
    ensures !(a.write && !a.read) ==>
              forall p: Pa :: Translate(mem, root, p) == if p < 0x80_0000_0000 then Mapped(p, a) else NotPresent
    ensures forall p: Pa ::
              TypeAt(mem, root, p) == if p < 0x80_0000_0000 then Some(mtrr(LargePageOf(p))) else None
  {
    hide TypeAt, Translate, LargePageOf;
    forall p: Pa ensures PageNumber(p, 1) < IDENTITY_PAGES <==> p < IDENTITY_LIMIT {
      PageNumberIsQuotient(p, 1);
    }
  }

  // -------- Sparse identity mapping

  /** The ranges before `j`, and the pages of range `j` before `limit`, are mapped, with their memory types. */
  ghost predicate SparseTyped(mem: Memory, root: nat, dir: Directory, mtrr: Pa -> MemoryType, a: Access,
                              ranges: seq<Range>, j: nat, limit: int, tables: set<Node>, free: nat)
    requires j <= |ranges|
  {
    SparseState(mem, root, dir, a, ranges, j, limit, tables, free) && TypedByLargePage(mem, root, mtrr)
  }

  lemma SparseTypedStart(mem: Memory, root: nat, dir: Directory, mtrr: Pa -> MemoryType, a: Access, ranges: seq<Range>,
                         tables: set<Node>, free: nat)
    requires WellFormed(mem, root, dir) && dir.Keys == {ROOT}
    requires Room(ranges, tables) && |tables| <= free + 1
    ensures SparseTyped(mem, root, dir, mtrr, a, ranges, 0, StartOf(ranges, 0), tables, free)
  {
    hide WellFormed, SparseState, TypedByLargePage;
    EmptyTypes(mem, root, dir, mtrr);
    SparseStart(mem, root, dir, a, ranges, tables, free);
  }

  lemma SparseTypedReady(mem: Memory, root: nat, dir: Directory, mtrr: Pa -> MemoryType, a: Access, ranges: seq<Range>,
                         j: nat, g: Pa, tables: set<Node>, free: nat)
    requires WellFormed(mem, root, dir) && j < |ranges| && g % 0x20_0000 == 0
    requires PageAlign(ranges[j].begin, 1) <= g < PageAlignUp(ranges[j].end, 1)
    requires Room(ranges, tables) && SparseTyped(mem, root, dir, mtrr, a, ranges, j, g, tables, free)
    ensures NoLargeAbove(mem, dir, g, 1, 2) && NodeOf(g, 0) !in dir && Missing(dir, g, 1, 2) <= free && ROOT in dir
  {
    hide SparseState, TypedByLargePage, NoLargeAbove, Missing, Room;
    SparsePageReady(mem, root, dir, a, ranges, j, g, tables, free);
  }

  lemma SparseTypedDone(m0: Memory, d0: Directory, m1: Memory, d1: Directory, root: nat, mtrr: Pa -> MemoryType,
                        a: Access, ranges: seq<Range>, j: nat, g: Pa, tables: set<Node>, f0: nat, f1: nat)
    requires j < |ranges| && g % 0x20_0000 == 0 && ROOT in d0
    requires PageAlign(ranges[j].begin, 1) <= g < PageAlignUp(ranges[j].end, 1)
    requires Room(ranges, tables) && SparseTyped(m0, root, d0, mtrr, a, ranges, j, g, tables, f0)
    requires MapPost(m0, d0, m1, d1, root, g, g, a, 1, 2) && TypeMapped(m0, m1, root, g, mtrr(g), 1)
    requires f1 == f0 - Missing(d0, g, 1, 2)
    ensures SparseTyped(m1, root, d1, mtrr, a, ranges, j, g + 0x20_0000, tables, f1)
  {
    hide SparseState, TypedByLargePage, MapPost, TypeMapped, Room, Missing;
    SparsePageDone(m0, d0, m1, d1, root, a, ranges, j, g, tables, f0, f1);
    LargePageTyped(m0, d0, m1, d1, root, mtrr, g, a);
  }

  lemma SparseTypedNext(mem: Memory, root: nat, dir: Directory, mtrr: Pa -> MemoryType, a: Access, ranges: seq<Range>,
                        j: nat, limit: int, tables: set<Node>, free: nat)
    requires j < |ranges| && PageAlignUp(ranges[j].end, 1) <= limit
    requires SparseTyped(mem, root, dir, mtrr, a, ranges, j, limit, tables, free)
    ensures SparseTyped(mem, root, dir, mtrr, a, ranges, j + 1, StartOf(ranges, j + 1), tables, free)
  {
    hide SparseState, TypedByLargePage;
    SparseNextState(mem, root, dir, a, ranges, j, limit, tables, free);
  }

  lemma SparseTypedEnd(mem: Memory, root: nat, dir: Directory, mtrr: Pa -> MemoryType, a: Access, ranges: seq<Range>,
                       tables: set<Node>, free: nat)
    requires SparseTyped(mem, root, dir, mtrr, a, ranges, |ranges|, StartOf(ranges, |ranges|), tables, free)
    ensures forall p: Pa :: Translate(mem, root, p) ==
                            if Touched(ranges, |ranges|, PageNumber(p, 1)) then IdentityOutcome(a, p) else NotPresent
    ensures forall p: Pa :: TypeAt(mem, root, p) ==
                            if Translate(mem, root, p) == NotPresent then None else Some(mtrr(LargePageOf(p)))
  {
    hide SparseState, Translate, TypeAt, Touched, IdentityOutcome;
    SparseEnd(mem, root, dir, a, ranges, tables, free);
  }
}
