/** Paging levels and the index arithmetic of addresses (ia32/paging.h, ia32/memory.h).  A level is the number of a
    paging structure: 0 is a page table (PT), 1 a page directory (PD), 2 a page directory pointer table (PDPT) and 3 the
    page map level 4 (PML4).  A `Node` names the region one table translates: the table of level `l` with prefix `k`
    covers the addresses whose page number at level `l + 1` is `k`. */
module Paging {

  const PT: nat := 0
  const PD: nat := 1
  const PDPT: nat := 2
  const PML4: nat := 3

  const ADDRESS_LIMIT: nat := 0x1_0000_0000_0000
  const FRAME_LIMIT: nat := 0x10_0000_0000

  /** Physical addresses are 48 bits wide: four 9-bit indices and a 12-bit page offset. */
  type Pa = p: int | 0 <= p < 0x1_0000_0000_0000

  datatype Node = Node(level: nat, prefix: nat)

  const ROOT := Node(3, 0)

  /** Bytes mapped by one entry of a table of the given level; level 4 stands for the whole address space. */
  function Span(l: nat): (s: int)
    requires l <= 4
    ensures s > 0
  {
    if l == 0 then 0x1000
    else if l == 1 then 0x20_0000
    else if l == 2 then 0x4000_0000
    else if l == 3 then 0x80_0000_0000
    else 0x1_0000_0000_0000
  }

  /** The number of the page of level `l` that contains `p`: the address shifted right by 12 + 9 * l. */
  function PageNumber(p: Pa, l: nat): nat
    requires l <= 4
  {
    if l == 0 then p / 0x1000 else PageNumber(p, l - 1) / 512
  }

  /** The 9-bit index that selects an entry in a table of level `l`. */
  function Offset(p: Pa, l: nat): (i: nat)
    requires l <= 3
    ensures i < 512
  {
    PageNumber(p, l) % 512
  }

  /** The address with its low bits cleared, as page_align does for a paging structure of level `l`. */
  function PageAlign(p: int, l: nat): int
    requires l <= 4
  {
    p - p % Span(l)
  }

  function PageAlignUp(p: int, l: nat): int
    requires l <= 4
  {
    PageAlign(p + Span(l) - 1, l)
  }

  predicate SamePage(p: Pa, q: Pa, l: nat)
    requires l <= 4
  {
    PageNumber(p, l) == PageNumber(q, l)
  }

  function NodeOf(p: Pa, l: nat): Node
    requires l <= 3
  {
    Node(l, PageNumber(p, l + 1))
  }

  function Child(n: Node, i: nat): Node
    requires 1 <= n.level <= 3 && i < 512
  {
    Node(n.level - 1, n.prefix * 512 + i)
  }

  function Parent(n: Node): Node {
    Node(n.level + 1, n.prefix / 512)
  }

  lemma PageNumberIsQuotient(p: Pa, l: nat)
    requires l <= 4
    ensures PageNumber(p, l) == p / Span(l)
  {
    if l == 0 {
    } else if l == 1 {
    } else if l == 2 {
      assert PageNumber(p, 1) == p / 0x20_0000;
    } else if l == 3 {
      PageNumberIsQuotient(p, 2);
    } else {
      PageNumberIsQuotient(p, 3);
    }
  }

  lemma PageNumberStep(p: Pa, l: nat)
    requires l <= 3
    ensures PageNumber(p, l) == PageNumber(p, l + 1) * 512 + Offset(p, l)
  {
  }

  lemma NodeOfChild(p: Pa, l: nat)
    requires 1 <= l <= 3
    ensures NodeOf(p, l - 1) == Child(NodeOf(p, l), Offset(p, l))
    ensures Parent(NodeOf(p, l - 1)) == NodeOf(p, l)
  {
    PageNumberStep(p, l);
  }

  /** The addresses that select entry `i` of the table of `n` are those of the region below it. */
  lemma ChildCovers(p: Pa, n: Node, i: nat)
    requires 1 <= n.level <= 3 && i < 512
    ensures NodeOf(p, n.level) == n && Offset(p, n.level) == i <==> NodeOf(p, n.level - 1) == Child(n, i)
  {
    NodeOfChild(p, n.level);
  }

  lemma RootCovers(p: Pa)
    ensures NodeOf(p, 3) == ROOT
  {
    PageNumberIsQuotient(p, 4);
  }

  lemma SamePageIndices(p: Pa, q: Pa, l: nat)
    requires l <= 3
    ensures SamePage(p, q, l) <==> NodeOf(p, l) == NodeOf(q, l) && Offset(p, l) == Offset(q, l)
  {
    PageNumberStep(p, l);
    PageNumberStep(q, l);
  }

  /** Addresses in one page of level `l` agree on every table above it. */
  lemma SamePageUp(p: Pa, q: Pa, l: nat, up: nat)
    requires l <= up <= 4
    requires SamePage(p, q, l)
    ensures SamePage(p, q, up)
    decreases up - l
  {
    if l < up {
      PageNumberStep(p, l);
      PageNumberStep(q, l);
      SamePageUp(p, q, l + 1, up);
    }
  }
}
