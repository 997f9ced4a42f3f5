/** Extended page table entries (ia32/ept.h) and the processor's walk over them (Intel SDM Vol. 3C, section 28.2.2). */
module EptWalk {
  import opened Paging
  import opened Wrappers

  datatype Access = Access(read: bool, write: bool, execute: bool)

  const NONE := Access(false, false, false)
  const READ_WRITE := Access(true, true, false)
  const EXECUTE := Access(false, false, true)
  const READ_WRITE_EXECUTE := Access(true, true, true)

  /** What a walk grants when both structures grant it. */
  function Meet(a: Access, b: Access): Access {
    Access(a.read && b.read, a.write && b.write, a.execute && b.execute)
  }

  datatype MemoryType = Uncacheable | WriteCombining | WriteThrough | WriteProtected | WriteBack

  /** The fields of an entry that the code reads or writes.  The page frame number is the 36-bit field of the common
      layout, also for large pages. */
  datatype Entry = Entry(access: Access, memoryType: MemoryType, large: bool, pfn: nat) {

    predicate Present() {
      access.read || access.write || access.execute
    }

    /** update(pa, access): the memory type and the large bit keep their values. */
    function Update(pa: int, newAccess: Access): Entry
      requires pa >= 0
    {
      this.(access := newAccess, pfn := pa / 0x1000 % FRAME_LIMIT)
    }

    /** update(pa, type, access) */
    function UpdateTyped(pa: int, newType: MemoryType, newAccess: Access): Entry
      requires pa >= 0
    {
      Update(pa, newAccess).(memoryType := newType)
    }

    /** update(pa, type, large, access) */
    function UpdateLarge(pa: int, newType: MemoryType, newLarge: bool, newAccess: Access): Entry
      requires pa >= 0
    {
      UpdateTyped(pa, newType, newAccess).(large := newLarge)
    }
  }

  /** An entry after clear(): all 64 bits are zero. */
  const CLEARED := Entry(NONE, Uncacheable, false, 0)

  type Table = t: seq<Entry> | |t| == 512 witness seq(512, _ => CLEARED)

  /** A table as map_subtable initialises it. */
  function EmptyTable(): (t: Table)
    ensures forall i :: 0 <= i < 512 ==> t[i] == CLEARED
  {
    seq(512, _ => CLEARED)
  }

  /** Physical memory that holds tables: page frame number to contents. */
  type Memory = map<nat, Table>

  /** The result of translating a guest-physical address.  `Wild` is a walk through a frame that holds no table. */
  datatype Outcome = Mapped(host: nat, access: Access) | NotPresent | Misconfigured | Wild

  /** Write access without read access is an EPT misconfiguration (section 28.2.3.1). */
  predicate BadAccess(a: Access) {
    a.write && !a.read
  }

  /** A present entry that maps a page: every entry of a page table, and a large entry of a PD or PDPT. */
  predicate IsLeaf(e: Entry, l: nat) {
    e.Present() && (l == 0 || (e.large && l <= 2))
  }

  predicate IsPointer(e: Entry, l: nat) {
    e.Present() && l > 0 && !e.large
  }

  /** The translation of `p` by a leaf entry of level `l`: the low frame bits of a large leaf are reserved. */
  function LeafOutcome(e: Entry, granted: Access, l: nat, p: Pa): Outcome
    requires l <= 3
  {
    if BadAccess(e.access) || e.pfn * 0x1000 % Span(l) != 0 then Misconfigured
    else Mapped(e.pfn * 0x1000 + p % Span(l), Meet(granted, e.access))
  }

  /** The processor's walk from the table in frame `f` of level `l`, having been granted `granted` so far. */
  function Walk(mem: Memory, f: nat, l: nat, p: Pa, granted: Access): Outcome
    requires l <= 3
    decreases l
  {
    if f !in mem then Wild
    else
      var e := mem[f][Offset(p, l)];
      if !e.Present() then NotPresent
      else if IsLeaf(e, l) then LeafOutcome(e, granted, l, p)
      else if BadAccess(e.access) || e.large then Misconfigured
      else Walk(mem, e.pfn, l - 1, p, Meet(granted, e.access))
  }

  function Translate(mem: Memory, root: nat, p: Pa): Outcome {
    Walk(mem, root, PML4, p, READ_WRITE_EXECUTE)
  }

  /** The memory type of the leaf at which the walk ends, if it reaches one. */
  function TypeWalk(mem: Memory, f: nat, l: nat, p: Pa): Option<MemoryType>
    requires l <= 3
    decreases l
  {
    if f !in mem then None
    else
      var e := mem[f][Offset(p, l)];
      if IsLeaf(e, l) then Some(e.memoryType)
      else if !e.Present() || BadAccess(e.access) || e.large then None
      else TypeWalk(mem, e.pfn, l - 1, p)
  }

  function TypeAt(mem: Memory, root: nat, p: Pa): Option<MemoryType> {
    TypeWalk(mem, root, PML4, p)
  }

  /** The outcome `map` asks for: a page of level `l` whose host base is `h`, with access `a`. */
  function PageOutcome(h: Pa, a: Access, l: nat, p: Pa): Outcome
    requires l <= 2
  {
    if BadAccess(a) || PageAlign(h, 0) % Span(l) != 0 then Misconfigured
    else Mapped(PageAlign(h, 0) + p % Span(l), a)
  }

  /** Where ept_entry ends: an entry of a table. */
  datatype Slot = Slot(frame: nat, level: nat, index: nat)

  /** ept_entry: the entry of the wanted level, or the large leaf above it, or nothing if a structure on the way is
      missing.  The PML4 level is not a level it can stop at. */
  function EptEntry(mem: Memory, root: nat, p: Pa, level: nat): Option<Slot> {
    if root !in mem then None else
    var pml4e := mem[root][Offset(p, PML4)];
    if !pml4e.Present() || pml4e.pfn !in mem then None else
    var pdpte := mem[pml4e.pfn][Offset(p, PDPT)];
    if pdpte.large || level == PDPT then Some(Slot(pml4e.pfn, PDPT, Offset(p, PDPT)))
    else if !pdpte.Present() || pdpte.pfn !in mem then None else
    var pde := mem[pdpte.pfn][Offset(p, PD)];
    if pde.large || level == PD then Some(Slot(pdpte.pfn, PD, Offset(p, PD)))
    else if !pde.Present() || pde.pfn !in mem then None
    else Some(Slot(pde.pfn, PT, Offset(p, PT)))
  }
}
