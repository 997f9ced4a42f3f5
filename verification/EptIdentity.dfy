/** Identity mapping of guest-physical memory with 2MB pages. */
module EptIdentity {
  import opened Paging
  import opened EptWalk
  import opened EptTree
  import opened EptPath
  import opened EptSplit

  const IDENTITY_LIMIT: nat := 0x80_0000_0000
  const IDENTITY_PAGES: nat := 0x4_0000
  const IDENTITY_TABLES: nat := 513

  function IdentityOutcome(a: Access, p: Pa): Outcome {
    if BadAccess(a) then Misconfigured else Mapped(p, a)
  }

  lemma IdentityPage(g: Pa, a: Access, p: Pa)
    requires g % 0x20_0000 == 0 && SamePage(p, g, 1)
    ensures PageOutcome(g, a, 1, p) == IdentityOutcome(a, p)
  {
    PageNumberIsQuotient(p, 1);
    PageNumberIsQuotient(g, 1);
  }

  /** An address that does not translate meets no large page. */
  lemma NotPresentNoLarge(mem: Memory, root: nat, dir: Directory, g: Pa, level: nat)
    requires WellFormed(mem, root, dir) && Translate(mem, root, g) == NotPresent
    ensures NoLargeAbove(mem, dir, g, level, 2)
  {
    forall k | level < k <= 2 && NodeOf(g, k) in dir ensures !EntryAt(mem, dir, g, k).large {
      EntryStep(mem, root, dir, g, k);
    }
  }

  // -------- map_identity

  /** The tables after the first `k` pages: the PDPT, and one PD for each started gigabyte. */
  predicate InIdentity(n: Node, k: nat) {
    n == ROOT || (k > 0 && n == Node(2, 0)) || (n.level == 1 && n.prefix * 512 < k)
  }

  ghost predicate IdentityTables(dir: Directory, k: nat) {
    forall n :: n in dir <==> InIdentity(n, k)
  }

  ghost predicate IdentityUpTo(mem: Memory, root: nat, a: Access, k: nat) {
    forall p: Pa :: Translate(mem, root, p) == if PageNumber(p, 1) < k then IdentityOutcome(a, p) else NotPresent
  }

  function TablesNeeded(k: nat): nat {
    if k == 0 then 0 else 1 + (k + 511) / 512
  }

  lemma IdentityReady(mem: Memory, root: nat, dir: Directory, a: Access, k: nat)
    requires WellFormed(mem, root, dir) && k < IDENTITY_PAGES
    requires IdentityTables(dir, k) && IdentityUpTo(mem, root, a, k)
    ensures NoLargeAbove(mem, dir, k * 0x20_0000, 1, 2)
    ensures NodeOf(k * 0x20_0000, 0) !in dir
    ensures Missing(dir, k * 0x20_0000, 1, 2) == TablesNeeded(k + 1) - TablesNeeded(k)
  {
    var g: Pa := k * 0x20_0000;
    PageNumberIsQuotient(g, 1);
    PageNumberIsQuotient(g, 2);
    PageNumberIsQuotient(g, 3);
    NotPresentNoLarge(mem, root, dir, g, 1);
    assert NodeOf(g, 2) == Node(2, 0);
    assert NodeOf(g, 1) == Node(1, k / 512);
  }

  lemma IdentityStep(m0: Memory, d0: Directory, m1: Memory, d1: Directory, root: nat, a: Access, k: nat)
    requires k < IDENTITY_PAGES
    requires IdentityTables(d0, k) && IdentityUpTo(m0, root, a, k)
    requires MapPost(m0, d0, m1, d1, root, k * 0x20_0000, k * 0x20_0000, a, 1, 2)
    ensures IdentityTables(d1, k + 1) && IdentityUpTo(m1, root, a, k + 1)
  {
    var g: Pa := k * 0x20_0000;
    PageNumberIsQuotient(g, 1);
    PageNumberIsQuotient(g, 2);
    PageNumberIsQuotient(g, 3);
    assert NodeOf(g, 2) == Node(2, 0);
    assert NodeOf(g, 1) == Node(1, k / 512);
    forall n: Node ensures OnPath(n, g, 1, 2) <==> n == Node(2, 0) || n == Node(1, k / 512) {
    }
    forall p: Pa
      ensures Translate(m1, root, p) == if PageNumber(p, 1) < k + 1 then IdentityOutcome(a, p) else NotPresent
    {
      if SamePage(p, g, 1) { IdentityPage(g, a, p); }
    }
  }

  // -------- map_identity_sparse

  datatype Range = Range(begin: nat, end: nat) {
    predicate Fits() {
      begin <= ADDRESS_LIMIT && end <= ADDRESS_LIMIT
    }

    predicate Contains(p: int) {
      begin <= p < end
    }
  }

  /** Page `i` lies in the part of the range's aligned interval below `limit`. */
  predicate InAligned(r: Range, i: nat, limit: int) {
    PageAlign(r.begin, 1) <= i * 0x20_0000 < PageAlignUp(r.end, 1) && i * 0x20_0000 < limit
  }

  /** Some of the first `j` ranges has page `i` in its aligned interval. */
  ghost predicate Touched(ranges: seq<Range>, j: nat, i: nat)
    requires j <= |ranges|
  {
    exists m :: 0 <= m < j && InAligned(ranges[m], i, ADDRESS_LIMIT)
  }

  /** The aligned interval of a non-empty range holds exactly the 2MB pages that the range touches. */
  lemma AlignedMeansTouching(r: Range, i: nat)
    requires r.Fits() && r.begin < r.end
    ensures InAligned(r, i, ADDRESS_LIMIT) <==> exists p :: i * 0x20_0000 <= p < (i + 1) * 0x20_0000 && r.Contains(p)
  {
    var lo, hi := i * 0x20_0000, (i + 1) * 0x20_0000;
    if InAligned(r, i, ADDRESS_LIMIT) {
      var p := if r.begin < lo then lo else r.begin;
      assert lo <= p < hi && r.Contains(p);
    }
    if p :| lo <= p < hi && r.Contains(p) {
      assert InAligned(r, i, ADDRESS_LIMIT);
    }
  }

  /** The progress of the sparse mapping: the first `j` ranges, and the part of range `j` below `limit`. */
  ghost predicate Done(ranges: seq<Range>, j: nat, limit: int, i: nat)
    requires j <= |ranges|
  {
    Touched(ranges, j, i) || (j < |ranges| && InAligned(ranges[j], i, limit))
  }

  ghost predicate SparseUpTo(mem: Memory, root: nat, dir: Directory, a: Access, ranges: seq<Range>, j: nat, limit: int)
    requires j <= |ranges|
  {
    && (forall p: Pa :: Translate(mem, root, p) ==
                        if Done(ranges, j, limit, PageNumber(p, 1)) then IdentityOutcome(a, p) else NotPresent)
    && (forall p: Pa :: Done(ranges, j, limit, PageNumber(p, 1)) ==> NodeOf(p, 1) in dir)
    && (forall n :: n in dir ==> n.level >= 1)
  }

  lemma SparseReady(mem: Memory, root: nat, dir: Directory, a: Access, ranges: seq<Range>, j: nat, g: Pa)
    requires WellFormed(mem, root, dir) && j < |ranges|
    requires SparseUpTo(mem, root, dir, a, ranges, j, g)
    ensures NoLargeAbove(mem, dir, g, 1, 2) && NodeOf(g, 0) !in dir
  {
    if Done(ranges, j, g, PageNumber(g, 1)) {
      PathPresent(mem, root, dir, g, 1);
    } else {
      NotPresentNoLarge(mem, root, dir, g, 1);
    }
  }

  lemma SparseStep(m0: Memory, d0: Directory, m1: Memory, d1: Directory, root: nat,
                   a: Access, ranges: seq<Range>, j: nat, g: Pa)
    requires j < |ranges| && g % 0x20_0000 == 0
    requires PageAlign(ranges[j].begin, 1) <= g < PageAlignUp(ranges[j].end, 1)
    requires SparseUpTo(m0, root, d0, a, ranges, j, g)
    requires MapPost(m0, d0, m1, d1, root, g, g, a, 1, 2)
    ensures SparseUpTo(m1, root, d1, a, ranges, j, g + 0x20_0000)
  {
    PageNumberIsQuotient(g, 1);
    forall p: Pa
      ensures Done(ranges, j, g + 0x20_0000, PageNumber(p, 1)) <==>
              Done(ranges, j, g, PageNumber(p, 1)) || SamePage(p, g, 1)
    {
      var i := PageNumber(p, 1);
      assert InAligned(ranges[j], i, g + 0x20_0000) <==> InAligned(ranges[j], i, g) || i * 0x20_0000 == g;
    }
    forall p: Pa
      ensures Translate(m1, root, p) ==
              if Done(ranges, j, g + 0x20_0000, PageNumber(p, 1)) then IdentityOutcome(a, p) else NotPresent
      ensures Done(ranges, j, g + 0x20_0000, PageNumber(p, 1)) ==> NodeOf(p, 1) in d1
    {
      if SamePage(p, g, 1) {
        IdentityPage(g, a, p);
        SamePageIndices(p, g, 1);
        assert OnPath(NodeOf(p, 1), g, 1, 2);
      }
    }
  }

  /** Where the pass over range `j` starts. */
  function StartOf(ranges: seq<Range>, j: nat): int {
    if j < |ranges| then PageAlign(ranges[j].begin, 1) else 0
  }

  /** The next range starts with nothing of its own mapped. */
  lemma SparseNext(mem: Memory, root: nat, dir: Directory, a: Access, ranges: seq<Range>, j: nat, limit: int)
    requires j < |ranges| && PageAlignUp(ranges[j].end, 1) <= limit
    requires SparseUpTo(mem, root, dir, a, ranges, j, limit)
    ensures SparseUpTo(mem, root, dir, a, ranges, j + 1, StartOf(ranges, j + 1))
  {
    forall p: Pa
      ensures Done(ranges, j + 1, StartOf(ranges, j + 1), PageNumber(p, 1)) <==>
              Done(ranges, j, limit, PageNumber(p, 1))
    {
      var i := PageNumber(p, 1);
      PageNumberIsQuotient(p, 1);
      assert InAligned(ranges[j], i, limit) <==> InAligned(ranges[j], i, ADDRESS_LIMIT);
    }
  }

  /** In a tree of the root alone nothing translates. */
  lemma EmptyTree(mem: Memory, root: nat, dir: Directory)
    requires WellFormed(mem, root, dir) && dir.Keys == {ROOT}
    ensures forall p: Pa :: Translate(mem, root, p) == NotPresent
  {
    forall p: Pa ensures Translate(mem, root, p) == NotPresent {
      RootCovers(p);
      assert NodeOf(p, 2) !in dir.Keys;
      EntryStep(mem, root, dir, p, 3);
      assert !IsLeaf(mem[dir[ROOT]][Offset(p, 3)], 3);
    }
  }

  // -------- Counting tables

  /** The tables of the path of a 2MB page that are missing. */
  ghost function PathTables(dir: Directory, g: Pa): set<Node> {
    (if NodeOf(g, 1) in dir then {} else {NodeOf(g, 1)}) + (if NodeOf(g, 2) in dir then {} else {NodeOf(g, 2)})
  }

  lemma PathTablesCount(dir: Directory, g: Pa)
    ensures |PathTables(dir, g)| == Missing(dir, g, 1, 2) && dir.Keys !! PathTables(dir, g)
    ensures forall n :: n in PathTables(dir, g) <==> n !in dir && (n == NodeOf(g, 1) || n == NodeOf(g, 2))
  {
  }

  /** Mapping adds exactly the missing tables of the path of a 2MB page. */
  lemma PathCount(d0: Directory, d1: Directory, g: Pa)
    requires ROOT in d0
    requires forall n :: n in d1 <==> n in d0 || OnPath(n, g, 1, 2)
    ensures |d1.Keys| == |d0.Keys| + Missing(d0, g, 1, 2)
  {
    var add := PathTables(d0, g);
    PathTablesCount(d0, g);
    hide Missing, PathTables;
    forall n ensures n in d1.Keys <==> n in d0.Keys + add {
      assert OnPath(n, g, 1, 2) <==> n == NodeOf(g, 1) || n == NodeOf(g, 2);
    }
    assert d1.Keys == d0.Keys + add;
  }

  lemma {:induction false} SubsetSize<T>(a: set<T>, b: set<T>)
    requires a <= b
    ensures |a| <= |b|
  {
    assert b == a + (b - a);
  }

  /** A set of regions that holds the tables so far and the path of `g`, and fits in memory, leaves room for the path.
      */
  lemma PathFits(dir: Directory, g: Pa, tables: set<Node>, free: nat)
    requires dir.Keys <= tables && NodeOf(g, 1) in tables && NodeOf(g, 2) in tables
    requires |tables| <= |dir.Keys| + free
    ensures Missing(dir, g, 1, 2) <= free
  {
    var add := PathTables(dir, g);
    PathTablesCount(dir, g);
    hide Missing, PathTables;
    assert dir.Keys + add <= tables;
    SubsetSize(dir.Keys + add, tables);
  }

  // -------- map_identity_sparse with its tables

  /** `tables` has room for the path of every page of the ranges. */
  ghost predicate Room(ranges: seq<Range>, tables: set<Node>) {
    && ROOT in tables
    && forall p: Pa :: Touched(ranges, |ranges|, PageNumber(p, 1)) ==> NodeOf(p, 1) in tables && NodeOf(p, 2) in tables
  }

  ghost predicate SparseState(mem: Memory, root: nat, dir: Directory, a: Access, ranges: seq<Range>, j: nat, limit: int,
                              tables: set<Node>, free: nat)
    requires j <= |ranges|
  {
    && SparseUpTo(mem, root, dir, a, ranges, j, limit)
    && dir.Keys <= tables && |tables| <= |dir.Keys| + free
  }

  lemma SparseStart(mem: Memory, root: nat, dir: Directory, a: Access, ranges: seq<Range>, tables: set<Node>, free: nat)
    requires WellFormed(mem, root, dir) && dir.Keys == {ROOT}
    requires Room(ranges, tables) && |tables| <= free + 1
    ensures SparseState(mem, root, dir, a, ranges, 0, StartOf(ranges, 0), tables, free)
  {
    EmptyTree(mem, root, dir);
    assert forall n :: n in dir <==> n in {ROOT};
  }

  lemma SparsePageReady(mem: Memory, root: nat, dir: Directory, a: Access, ranges: seq<Range>, j: nat, g: Pa,
                        tables: set<Node>, free: nat)
    requires WellFormed(mem, root, dir) && j < |ranges| && g % 0x20_0000 == 0
    requires PageAlign(ranges[j].begin, 1) <= g < PageAlignUp(ranges[j].end, 1)
    requires Room(ranges, tables) && SparseState(mem, root, dir, a, ranges, j, g, tables, free)
    ensures NoLargeAbove(mem, dir, g, 1, 2) && NodeOf(g, 0) !in dir && Missing(dir, g, 1, 2) <= free
  {
    PageNumberIsQuotient(g, 1);
    assert InAligned(ranges[j], PageNumber(g, 1), ADDRESS_LIMIT);
    SparseReady(mem, root, dir, a, ranges, j, g);
    PathFits(dir, g, tables, free);
  }

  lemma SparsePageDone(m0: Memory, d0: Directory, m1: Memory, d1: Directory, root: nat, a: Access, ranges: seq<Range>,
                       j: nat, g: Pa, tables: set<Node>, f0: nat, f1: nat)
    requires j < |ranges| && g % 0x20_0000 == 0 && ROOT in d0
    requires PageAlign(ranges[j].begin, 1) <= g < PageAlignUp(ranges[j].end, 1)
    requires Room(ranges, tables) && SparseState(m0, root, d0, a, ranges, j, g, tables, f0)
    requires MapPost(m0, d0, m1, d1, root, g, g, a, 1, 2) && f1 == f0 - Missing(d0, g, 1, 2)
    ensures SparseState(m1, root, d1, a, ranges, j, g + 0x20_0000, tables, f1)
  {
    PageNumberIsQuotient(g, 1);
    assert InAligned(ranges[j], PageNumber(g, 1), ADDRESS_LIMIT);
    SparseStep(m0, d0, m1, d1, root, a, ranges, j, g);
    PathCount(d0, d1, g);
    forall n | n in d1 ensures n in tables {
      if OnPath(n, g, 1, 2) { assert n == NodeOf(g, 1) || n == NodeOf(g, 2); }
    }
  }

  lemma SparseNextState(mem: Memory, root: nat, dir: Directory, a: Access, ranges: seq<Range>, j: nat, limit: int,
                        tables: set<Node>, free: nat)
    requires j < |ranges| && PageAlignUp(ranges[j].end, 1) <= limit
    requires SparseState(mem, root, dir, a, ranges, j, limit, tables, free)
    ensures SparseState(mem, root, dir, a, ranges, j + 1, StartOf(ranges, j + 1), tables, free)
  {
    SparseNext(mem, root, dir, a, ranges, j, limit);
  }

  lemma SparseEnd(mem: Memory, root: nat, dir: Directory, a: Access, ranges: seq<Range>, tables: set<Node>, free: nat)
    requires SparseState(mem, root, dir, a, ranges, |ranges|, StartOf(ranges, |ranges|), tables, free)
    ensures forall p: Pa :: Translate(mem, root, p) ==
                            if Touched(ranges, |ranges|, PageNumber(p, 1)) then IdentityOutcome(a, p) else NotPresent
  {
  }
}
