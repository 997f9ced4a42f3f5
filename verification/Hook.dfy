/** The VM-exit handlers of vmexit_custom.cpp, as steps on one virtual CPU. */
module HookHandler {
  import opened EptEngine
  import opened EptIdentity
  import opened EptPath
  import opened EptSplit
  import opened EptTree
  import opened EptWalk
  import opened HookModel
  import opened Paging
  import opened Wrappers

  /** The tables of the idle state, and the page table of the hidden page if there is one. */
  ghost predicate HookTables(dir: Directory, hook: Hook) {
    forall n :: n in dir <==> InIdentity(n, IDENTITY_PAGES) || (hook.Hidden? && n == NodeOf(hook.exec, 0))
  }

  /** What the tables hold in a state of the protocol. */
  ghost predicate View(mem: Memory, root: nat, dir: Directory, hook: Hook) {
    && hook.InRange()
    && HookTables(dir, hook)
    && forall p: Pa :: Translate(mem, root, p) == HookOutcome(hook, p)
  }

  /** Tables allocated below the root. */
  function TableCount(hook: Hook): nat {
    if hook.Idle? then IDENTITY_TABLES else IDENTITY_TABLES + 1
  }

  lemma SetupDone(mem: Memory, root: nat, dir: Directory)
    requires IdentityTables(dir, IDENTITY_PAGES)
    requires forall p: Pa :: Translate(mem, root, p) ==
                             if p < IDENTITY_LIMIT then IdentityOutcome(READ_WRITE_EXECUTE, p) else NotPresent
    ensures View(mem, root, dir, Idle)
  {
  }

  lemma PathInDirectory(mem: Memory, root: nat, dir: Directory, hook: Hook, p: Pa)
    requires WellFormed(mem, root, dir) && View(mem, root, dir, hook) && p < IDENTITY_LIMIT
    ensures NodeOf(p, 1) in dir
    ensures EptEntry(mem, root, p, 1) == Some(Slot(dir[NodeOf(p, 1)], 1, Offset(p, 1)))
    ensures dir[NodeOf(p, 1)] in mem
    ensures var e := mem[dir[NodeOf(p, 1)]][Offset(p, 1)];
            if NodeOf(p, 0) in dir then IsPointer(e, 1) else IsLeaf(e, 1)
  {
    PageNumberIsQuotient(p, 2);
    EptEntryAgreesWithWalk(mem, root, dir, p, 1);
    EntryStep(mem, root, dir, p, 1);
    assert HookOutcome(hook, p).Mapped?;
  }

  lemma AlignedPath(p: Pa)
    ensures SamePage(PageAlign(p, 1), p, 1) && NodeOf(PageAlign(p, 1), 0) == NodeOf(p, 0)
    ensures PageAlign(p, 1) % 0x20_0000 == 0 && PageAlign(p, 1) + 0x20_0000 <= ADDRESS_LIMIT
    ensures p < IDENTITY_LIMIT ==> PageAlign(p, 1) < IDENTITY_LIMIT
  {
    PageNumberIsQuotient(p, 1);
    PageNumberIsQuotient(PageAlign(p, 1), 1);
  }

  lemma IdlePage(hook: Hook, g: Pa, p: Pa)
    requires hook.Idle? && g < IDENTITY_LIMIT && g % 0x20_0000 == 0 && SamePage(p, g, 1)
    ensures HookOutcome(hook, p) == PageOutcome(g, READ_WRITE_EXECUTE, 1, p)
  {
    IdentityPage(g, READ_WRITE_EXECUTE, p);
    PageNumberIsQuotient(p, 1);
    PageNumberIsQuotient(g, 1);
  }

  lemma HidesUp(hook: Hook, p: Pa)
    ensures hook.Hides(p) ==> SamePage(p, hook.exec, 1)
  {
    if hook.Hides(p) { SamePageUp(p, hook.exec, 0, 1); }
  }

  /** The page table of `exec` is there exactly if some hidden page shares its 2MB page. */
  lemma TableOfPage(dir: Directory, hook: Hook, exec: Pa)
    requires HookTables(dir, hook)
    ensures NodeOf(exec, 0) in dir <==> hook.Hidden? && SamePage(exec, hook.exec, 1)
    ensures hook.Hides(exec) ==> NodeOf(exec, 0) in dir
  {
    HidesUp(hook, exec);
  }

  /** A 2MB page without a page table is mapped to itself: no hidden page lies in it. */
  lemma WholePage(dir: Directory, hook: Hook, exec: Pa, p: Pa)
    requires HookTables(dir, hook) && exec < IDENTITY_LIMIT && NodeOf(exec, 0) !in dir
    requires SamePage(p, PageAlign(exec, 1), 1)
    ensures HookOutcome(hook, p) == PageOutcome(PageAlign(exec, 1), READ_WRITE_EXECUTE, 1, p)
  {
    AlignedPath(exec);
    TableOfPage(dir, hook, exec);
    HidesUp(hook, p);
    IdlePage(Idle, PageAlign(exec, 1), p);
  }

  /** The tables of a view with the page table of `exec` added. */
  ghost predicate ReadyToHide(mem: Memory, root: nat, dir: Directory, hook: Hook, exec: Pa) {
    && (forall p: Pa :: Translate(mem, root, p) == HookOutcome(hook, p))
    && (forall n :: n in dir <==>
          InIdentity(n, IDENTITY_PAGES) || n == NodeOf(exec, 0) || (hook.Hidden? && n == NodeOf(hook.exec, 0)))
  }

  /** Splitting the 2MB page of `exec`, in any state in which it is whole, adds one table and changes no translation. */
  lemma SplitForHide(m0: Memory, d0: Directory, m1: Memory, d1: Directory, root: nat, hook: Hook, exec: Pa)
    requires exec < IDENTITY_LIMIT && View(m0, root, d0, hook) && NodeOf(exec, 0) !in d0
    requires PageAlign(exec, 1) + 0x20_0000 <= ADDRESS_LIMIT
    requires SplitUpTo(m0, d0, m1, d1, root, PageAlign(exec, 1), PageAlign(exec, 1), READ_WRITE_EXECUTE, 1, 1, 512)
    ensures ReadyToHide(m1, root, d1, hook, exec)
  {
    var g: Pa := PageAlign(exec, 1);
    AlignedPath(exec);
    forall p: Pa | SamePage(p, g, 1) ensures Translate(m0, root, p) == PageOutcome(g, READ_WRITE_EXECUTE, 1, p) {
      WholePage(d0, hook, exec, p);
    }
    SplitPreservesTranslation(m0, d0, m1, d1, root, g, g, READ_WRITE_EXECUTE, 1);
    forall n: Node ensures OnPath(n, g, 0, 0) <==> n == NodeOf(exec, 0) {
    }
  }

  /** What split does on the way to hiding `exec`: it finds a large page, or it leaves the tables alone. */
  lemma SplitDone(m0: Memory, d0: Directory, m1: Memory, d1: Directory, root: nat, hook: Hook, exec: Pa)
    requires View(m0, root, d0, hook) && exec < IDENTITY_LIMIT
    requires PageAlign(exec, 1) + 0x20_0000 <= ADDRESS_LIMIT
    requires var g: Pa := PageAlign(exec, 1);
             if NodeOf(exec, 0) !in d0 then SplitUpTo(m0, d0, m1, d1, root, g, g, READ_WRITE_EXECUTE, 1, 1, 512)
             else m1 == m0 && d1 == d0
    ensures ReadyToHide(m1, root, d1, hook, exec)
  {
    if NodeOf(exec, 0) !in d0 {
      SplitForHide(m0, d0, m1, d1, root, hook, exec);
    }
  }

  /** The entry that split and join look at: large unless the page of `exec` has a page table. */
  lemma EntryForSplit(mem: Memory, root: nat, dir: Directory, hook: Hook, exec: Pa)
    requires WellFormed(mem, root, dir) && View(mem, root, dir, hook) && exec < IDENTITY_LIMIT
    ensures var g: Pa := PageAlign(exec, 1);
            && g % 0x20_0000 == 0 && g + 0x20_0000 <= ADDRESS_LIMIT && NodeOf(g, 1) in dir && dir[NodeOf(g, 1)] in mem
            && EptEntry(mem, root, g, 1) == Some(Slot(dir[NodeOf(g, 1)], 1, Offset(g, 1)))
            && (mem[dir[NodeOf(g, 1)]][Offset(g, 1)].large <==> NodeOf(exec, 0) !in dir)
  {
    AlignedPath(exec);
    PathInDirectory(mem, root, dir, hook, PageAlign(exec, 1));
  }

  /** Mapping one 4KB page whose table is there adds no table. */
  lemma MapKeepsDirectory(m0: Memory, d0: Directory, m1: Memory, d1: Directory, root: nat, g: Pa, h: Pa, a: Access)
    requires WellFormed(m0, root, d0) && NodeOf(g, 0) in d0 && MapPost(m0, d0, m1, d1, root, g, h, a, 0, 2)
    ensures forall n :: n in d1 <==> n in d0
  {
    forall n ensures n in d1 <==> n in d0 {
      if OnPath(n, g, 0, 2) { PathIsClosed(m0, root, d0, g, 0, n.level); }
    }
  }

  lemma HostOfPage(h: Pa, a: Access, p: Pa)
    requires !BadAccess(a)
    ensures PageOutcome(h, a, 0, p) == Mapped(HostOf(h, p), a)
  {
    PageNumberIsQuotient(p, 0);
  }

  /** Hiding a page, in every state of the protocol: the old view with one more execute-only page. */
  lemma HideIsOverlay(m0: Memory, d0: Directory, m1: Memory, d1: Directory, root: nat, hook: Hook, exec: Pa)
    requires ReadyToHide(m0, root, d0, hook, exec)
    requires MapPost(m0, d0, m1, d1, root, exec, exec, EXECUTE, 0, 2)
    ensures forall p: Pa :: Translate(m1, root, p) == Overlay(hook, exec, p)
  {
    forall p: Pa ensures Translate(m1, root, p) == Overlay(hook, exec, p) {
      HostOfPage(exec, EXECUTE, p);
    }
  }

  /** After hiding, the tables hold the view with that page alone hidden if and only if none, or the same page, was
      hidden before. */
  lemma HideGivesView(m0: Memory, d0: Directory, m1: Memory, d1: Directory, root: nat, hook: Hook, exec: Pa, read: Pa)
    requires hook.InRange() && exec < IDENTITY_LIMIT
    requires WellFormed(m0, root, d0) && ReadyToHide(m0, root, d0, hook, exec)
    requires MapPost(m0, d0, m1, d1, root, exec, exec, EXECUTE, 0, 2)
    ensures View(m1, root, d1, Hidden(exec, read, false)) <==> hook.Idle? || hook.Hides(exec)
  {
    HideIsOverlay(m0, d0, m1, d1, root, hook, exec);
    HideNeedsFreeSlot(hook, exec, read);
    MapKeepsDirectory(m0, d0, m1, d1, root, exec, exec, EXECUTE);
    HidesUp(hook, exec);
  }

  function ViewAccess(view: bool): Access {
    if view then READ_WRITE else EXECUTE
  }

  /** The page of the hidden page in a view, and all other pages, make the view. */
  lemma ViewOutcome(hook: Hook, view: bool, p: Pa)
    requires hook.Hidden? && hook.InRange()
    ensures HookOutcome(hook.(dataView := view), p) ==
            if SamePage(p, hook.exec, 0) then PageOutcome(if view then hook.read else hook.exec, ViewAccess(view), 0, p)
            else HookOutcome(hook, p)
  {
    HostOfPage(if view then hook.read else hook.exec, ViewAccess(view), p);
    PageNumberIsQuotient(p, 0);
    PageNumberIsQuotient(hook.exec, 0);
  }

  /** Remapping the hidden page switches its view. */
  lemma MapForView(m0: Memory, d0: Directory, m1: Memory, d1: Directory, root: nat, hook: Hook, view: bool)
    requires WellFormed(m0, root, d0) && hook.Hidden? && View(m0, root, d0, hook) && NodeOf(hook.exec, 0) in d0
    requires MapPost(m0, d0, m1, d1, root, hook.exec, if view then hook.read else hook.exec, ViewAccess(view), 0, 2)
    ensures View(m1, root, d1, hook.(dataView := view))
  {
    hide WellFormed, Translate, HookOutcome, PageOutcome, OnPath;
    MapKeepsDirectory(m0, d0, m1, d1, root, hook.exec, if view then hook.read else hook.exec, ViewAccess(view));
    forall p: Pa ensures Translate(m1, root, p) == HookOutcome(hook.(dataView := view), p) {
      ViewOutcome(hook, view, p);
    }
  }

  /** Joining the 2MB page of the hidden page gives the idle view back. */
  lemma JoinForUnhide(m0: Memory, d0: Directory, m1: Memory, d1: Directory, root: nat, hook: Hook, exec: Pa)
    requires hook.Hides(exec) && View(m0, root, d0, hook) && exec < IDENTITY_LIMIT
    requires JoinPost(m0, d0, m1, d1, root, PageAlign(exec, 1), PageAlign(exec, 1), READ_WRITE_EXECUTE, 1)
    ensures View(m1, root, d1, Idle)
    ensures d0.Keys == d1.Keys + {NodeOf(exec, 0)} && NodeOf(exec, 0) !in d1.Keys
  {
    var g: Pa := PageAlign(exec, 1);
    AlignedPath(exec);
    SamePageUp(exec, hook.exec, 0, 1);
    assert NodeOf(exec, 0) == NodeOf(hook.exec, 0);
    assert Under(NodeOf(exec, 0), NodeOf(g, 0));
    forall n ensures n in d1 <==> InIdentity(n, IDENTITY_PAGES) {
      assert Under(n, NodeOf(g, 0)) <==> n == NodeOf(g, 0);
    }
    forall p: Pa ensures Translate(m1, root, p) == HookOutcome(Idle, p) {
      if SamePage(p, g, 1) {
        IdlePage(Idle, g, p);
      } else if hook.Hides(p) {
        SamePageUp(p, hook.exec, 0, 1);
      }
    }
    forall n ensures n in d0.Keys <==> n in d1.Keys + {NodeOf(exec, 0)} {
    }
  }

  /** The registers of a VMCALL; the pointers are given by the physical addresses of what they point to. */
  datatype VmcallContext = VmcallContext(rcx: nat, rdx: Pa, r8: Pa)

  datatype ViolationQualification = ViolationQualification(dataRead: bool, dataWrite: bool, dataExecute: bool)

  const NO_ACCESS := ViolationQualification(false, false, false)

  function QualificationOf(k: Kind): ViolationQualification {
    ViolationQualification(k == Read, k == Write, k == Fetch)
  }

  datatype Exit =
    | Vmcall(context: VmcallContext)
    | EptViolation(qualification: ViolationQualification)

  /** per_vcpu_data, with the part of the virtual CPU that the handlers touch. */
  class VirtualCpu {
    const ept: Ept
    var pageRead: Pa
    var pageExec: Pa
    var rip: int
    var suppressRipAdjust: bool

    /** The translations the processor has cached for these tables, and the state of the protocol. */
    ghost var cache: set<Cached>
    ghost var hook: Hook

    ghost predicate Valid()
      reads this, ept
    {
      && ept.Valid()
      && View(ept.mem, ept.root, ept.dir, hook)
      && pageExec < IDENTITY_LIMIT
      && (hook.Hidden? ==> pageExec == hook.exec && pageRead == hook.read)
      && |ept.free| + TableCount(hook) == |ept.pool| && |ept.pool| > IDENTITY_TABLES
    }

    ghost function State(): Machine
      reads this
    {
      Machine(hook, cache)
    }

    /** setup() */
    constructor (root: nat, pool: set<nat>, mtrr: Pa -> MemoryType)
      requires 0 < root < FRAME_LIMIT && root !in pool
      requires forall f :: f in pool ==> 0 < f < FRAME_LIMIT
      requires |pool| > IDENTITY_TABLES
      ensures Valid() && State() == BOOTED && fresh(ept)
    {
      var tables := new Ept(root, pool, mtrr);
      tables.MapIdentity(READ_WRITE_EXECUTE);
      SetupDone(tables.mem, tables.root, tables.dir);
      ept := tables;
      pageExec := 0;
      pageRead := 0;
      rip := 0;
      suppressRipAdjust := false;
      cache := {};
      hook := Idle;
    }

    /** vmx::invept_single_context() */
    method InveptSingleContext()
      modifies this`cache
      ensures cache == {}
    {
      cache := {};
    }

    /** split_2mb_to_4kb of the page around `exec` */
    method SplitAround(exec: Pa)
      requires ept.Valid() && View(ept.mem, ept.root, ept.dir, hook) && exec < IDENTITY_LIMIT
      requires NodeOf(exec, 0) in ept.dir || |ept.free| >= 1
      modifies ept
      ensures ept.Valid() && ReadyToHide(ept.mem, ept.root, ept.dir, hook, exec)
      ensures |ept.free| == old(|ept.free|) - (if NodeOf(exec, 0) in old(ept.dir) then 0 else 1)
    {
      EntryForSplit(ept.mem, ept.root, ept.dir, hook, exec);
      var g: Pa := PageAlign(exec, 1);
      ept.Split(g, g, READ_WRITE_EXECUTE, PD);
      SplitDone(old(ept.mem), old(ept.dir), ept.mem, ept.dir, ept.root, hook, exec);
    }

    /** map_4kb of a page whose page table is there */
    method Map4kb(g: Pa, h: Pa, a: Access)
      requires ept.Valid() && NodeOf(g, 0) in ept.dir && a != NONE
      modifies ept
      ensures ept.Valid() && MapPost(old(ept.mem), old(ept.dir), ept.mem, ept.dir, ept.root, g, h, a, 0, 2)
      ensures |ept.free| == old(|ept.free|)
    {
      PathPresent(ept.mem, ept.root, ept.dir, g, 0);
      var r := ept.Map(g, h, a, PT);
    }

    /** What VMCALL 0xc1 does to the tables. */
    method HideTables(exec: Pa)
      requires ept.Valid() && View(ept.mem, ept.root, ept.dir, hook) && exec < IDENTITY_LIMIT
      requires NodeOf(exec, 0) in ept.dir || |ept.free| >= 1
      modifies ept
      ensures ept.Valid()
      ensures forall p: Pa :: Translate(ept.mem, ept.root, p) == Overlay(hook, exec, p)
      ensures forall read ::
                View(ept.mem, ept.root, ept.dir, Hidden(exec, read, false)) <==> hook.Idle? || hook.Hides(exec)
      ensures |ept.free| == old(|ept.free|) - (if NodeOf(exec, 0) in old(ept.dir) then 0 else 1)
    {
      SplitAround(exec);
      assert NodeOf(exec, 0) in ept.dir;
      hide WellFormed, Conserved, View, ReadyToHide, MapPost, Translate;
      ghost var m1, d1 := ept.mem, ept.dir;
      Map4kb(exec, exec, EXECUTE);
      HideIsOverlay(m1, d1, ept.mem, ept.dir, ept.root, hook, exec);
      forall read
        ensures View(ept.mem, ept.root, ept.dir, Hidden(exec, read, false)) <==> hook.Idle? || hook.Hides(exec)
      {
        HideGivesView(m1, d1, ept.mem, ept.dir, ept.root, hook, exec, read);
      }
    }

    /** VMCALL 0xc1, in every state of the protocol: the old view with one more execute-only page.  That is the next
        state of the protocol if and only if none, or the same page, was hidden.  The allocator has a table for a second
        page. */
    method Hide(read: Pa, exec: Pa)
      requires Valid() && exec < IDENTITY_LIMIT
      requires hook.Hidden? ==> |ept.free| >= 1
      modifies this`pageRead, this`pageExec, this`cache, this`hook, ept
      ensures ept.Valid() && cache == {} && pageRead == read && pageExec == exec && hook == Hidden(exec, read, false)
      ensures forall p: Pa :: Translate(ept.mem, ept.root, p) == Overlay(old(hook), exec, p)
      ensures Valid() <==> old(hook.Idle? || hook.Hides(exec))
      ensures old(hook.Idle? || hook.Hides(exec)) ==> Step(old(State()), Event.Hide(exec, read), State())
    {
      TableOfPage(ept.dir, hook, exec);
      hide WellFormed, Conserved, View, Translate;
      pageRead := read;
      pageExec := exec;
      HideTables(exec);
      hook := Hidden(exec, read, false);
      InveptSingleContext();
    }

    /** join_4kb_to_2mb of the page around `exec`, the hidden one if any */
    method UnhideTables(exec: Pa)
      requires ept.Valid() && View(ept.mem, ept.root, ept.dir, hook) && exec < IDENTITY_LIMIT
      requires hook.Hidden? ==> hook.exec == exec
      modifies ept
      ensures ept.Valid() && View(ept.mem, ept.root, ept.dir, Idle)
      ensures |ept.free| == old(|ept.free|) + (if hook.Hidden? then 1 else 0)
      ensures hook.Idle? ==> ept.mem == old(ept.mem) && ept.free == old(ept.free)
    {
      TableOfPage(ept.dir, hook, exec);
      EntryForSplit(ept.mem, ept.root, ept.dir, hook, exec);
      hide WellFormed, Conserved, View, JoinPost, EptEntry, Translate;
      var g: Pa := PageAlign(exec, 1);
      ept.Join(g, g, READ_WRITE_EXECUTE, PD);
      if hook.Hidden? {
        JoinForUnhide(old(ept.mem), old(ept.dir), ept.mem, ept.dir, ept.root, hook, exec);
        FreeCount(old(ept.mem), ept.root, old(ept.dir), old(ept.free), ept.pool);
        FreeCount(ept.mem, ept.root, ept.dir, ept.free, ept.pool);
      }
    }

    /** VMCALL 0xc2 */
    method Unhide()
      requires Valid()
      modifies this`cache, this`hook, ept
      ensures Valid()
      ensures Step(old(State()), Event.Unhide, State())
      ensures old(hook.Idle?) ==> ept.mem == old(ept.mem) && ept.free == old(ept.free)
    {
      hide WellFormed, Conserved, View, Translate;
      UnhideTables(pageExec);
      hook := Idle;
      InveptSingleContext();
    }

    /** handle_execute_vmcall: whether the call is handled here, or left to the base handler. */
    method HandleExecuteVmcall(context: VmcallContext) returns (handled: bool)
      requires Valid()
      requires context.rcx == 0xc1 ==> context.r8 < IDENTITY_LIMIT && (hook.Hidden? ==> |ept.free| >= 1)
      modifies this`pageRead, this`pageExec, this`cache, this`hook, ept
      ensures ept.Valid()
      ensures handled <==> context.rcx == 0xc1 || context.rcx == 0xc2
      ensures Valid() <==> (context.rcx == 0xc1 ==> old(hook.Idle? || hook.Hides(context.r8)))
      ensures context.rcx == 0xc1 ==>
                forall p: Pa :: Translate(ept.mem, ept.root, p) == Overlay(old(hook), context.r8, p)
      ensures context.rcx == 0xc1 && Valid() ==>
                Step(old(State()), Event.Hide(context.r8, context.rdx), State())
      ensures context.rcx == 0xc2 ==> Step(old(State()), Event.Unhide, State())
      ensures !handled ==> State() == old(State()) && ept.mem == old(ept.mem)
    {
      hide View, WellFormed, Conserved, Translate;
      if context.rcx == 0xc1 {
        Hide(context.rdx, context.r8);
        return true;
      } else if context.rcx == 0xc2 {
        Unhide();
        return true;
      }
      return false;
    }

    /** handle_ept_violation: switch the view of the hidden page to the one the access needs, and retry the access. */
    method HandleEptViolation(qualification: ViolationQualification)
      requires Valid()
      requires qualification.dataRead || qualification.dataWrite || qualification.dataExecute ==> hook.Hidden?
      modifies this`hook, this`suppressRipAdjust, ept
      ensures Valid() && suppressRipAdjust
      ensures hook == if qualification.dataRead || qualification.dataWrite then old(hook).(dataView := true)
                      else if qualification.dataExecute then old(hook).(dataView := false)
                      else old(hook)
    {
      TableOfPage(ept.dir, hook, pageExec);
      hide View, WellFormed, Conserved, MapPost;
      if qualification.dataRead || qualification.dataWrite {
        Map4kb(pageExec, pageRead, READ_WRITE);
        MapForView(old(ept.mem), old(ept.dir), ept.mem, ept.dir, ept.root, hook, true);
        hook := hook.(dataView := true);
      } else if qualification.dataExecute {
        Map4kb(pageExec, pageExec, EXECUTE);
        MapForView(old(ept.mem), old(ept.dir), ept.mem, ept.dir, ept.root, hook, false);
        hook := hook.(dataView := false);
      }
      suppressRipAdjust := true;
    }

    /** The part of entry_host around the handlers: the instruction pointer moves on unless the handler suppressed it.
        What the base handler does with a call that is not handled here is not part of this model. */
    method HandleExit(exit: Exit, instructionLength: nat)
      requires Valid()
      requires exit.Vmcall? && exit.context.rcx == 0xc1 ==>
                 exit.context.r8 < IDENTITY_LIMIT && (hook.Hidden? ==> |ept.free| >= 1)
      requires exit.EptViolation? && exit.qualification != NO_ACCESS ==> hook.Hidden?
      modifies this, ept
      ensures ept.Valid()
      ensures Valid() <==>
                (exit.Vmcall? && exit.context.rcx == 0xc1 ==> old(hook.Idle? || hook.Hides(exit.context.r8)))
      ensures exit.Vmcall? && (exit.context.rcx == 0xc1 || exit.context.rcx == 0xc2) ==>
                rip == old(rip) + instructionLength
      ensures exit.EptViolation? ==> rip == old(rip) && cache == old(cache)
      ensures forall k :: exit == EptViolation(QualificationOf(k)) ==> hook == AfterViolation(old(hook), k)
      ensures exit.Vmcall? && exit.context.rcx == 0xc1 && Valid() ==>
                Step(old(State()), Event.Hide(exit.context.r8, exit.context.rdx), State())
      ensures exit.Vmcall? && exit.context.rcx == 0xc2 ==> Step(old(State()), Event.Unhide, State())
    {
      hide View, WellFormed, Conserved, Translate, Step;
      suppressRipAdjust := false;
      match exit {
        case Vmcall(context) => var handled := HandleExecuteVmcall(context);
        case EptViolation(qualification) => HandleEptViolation(qualification);
      }
      if !suppressRipAdjust {
        rip := rip + instructionLength;
      }
    }

    /** teardown(): the tables are deleted, and every frame goes back to the allocator. */
    method Teardown()
      requires Valid()
      modifies ept
      ensures ept.Valid() && ept.free == ept.pool
    {
      ept.Teardown();
    }
  }
}
