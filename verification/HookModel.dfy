/** The page-hiding protocol of vmexit_custom.cpp as a state machine over whole runs of the guest, with the processor's
    cached translations (Intel SDM Vol. 3C, sections 28.2.3.2 and 28.3.3). */
module HookModel {
  import opened EptIdentity
  import opened EptWalk
  import opened Paging
  import opened Wrappers

  /** What the guest sees.  While `exec` is hidden, its page shows either the executable page or, in the data view, the
      contents of `read`. */
  datatype Hook = Idle | Hidden(exec: Pa, read: Pa, dataView: bool) {

    predicate Hides(p: Pa) {
      Hidden? && SamePage(p, exec, 0)
    }

    predicate InRange() {
      Hidden? ==> exec < IDENTITY_LIMIT
    }
  }

  function HostOf(base: Pa, p: Pa): nat {
    PageAlign(base, 0) + p % 0x1000
  }

  /** The translation that the tables hold in each state of the protocol. */
  function HookOutcome(hook: Hook, p: Pa): Outcome {
    if p >= IDENTITY_LIMIT then NotPresent
    else if !hook.Hides(p) then Mapped(p, READ_WRITE_EXECUTE)
    else if hook.dataView then Mapped(HostOf(hook.read, p), READ_WRITE)
    else Mapped(HostOf(hook.exec, p), EXECUTE)
  }

  datatype Kind = Read | Write | Fetch

  predicate Permits(a: Access, k: Kind) {
    match k
    case Read => a.read
    case Write => a.write
    case Fetch => a.execute
  }

  /** Where an access has to arrive: a fetch from the hidden page at the executable page, data at the other page, and
      everything else at the address itself. */
  function Expected(hook: Hook, p: Pa, k: Kind): nat {
    if hook.Hides(p) && k != Fetch then HostOf(hook.read, p) else p
  }

  /** A translation the processor has cached: a guest-physical mapping (no linear page), or a combined mapping that is
      used only for accesses through one linear page. */
  datatype Cached = Cached(linear: Option<nat>, page: nat, host: nat, access: Access) {

    predicate UsableFor(la: nat, p: Pa) {
      page == PageNumber(p, 0) && (linear == None || linear == Some(la))
    }
  }

  datatype Machine = Machine(hook: Hook, cache: set<Cached>)

  const BOOTED := Machine(Idle, {})

  datatype Event =
    | Fill(linear: Option<nat>, p: Pa)
    | Evict(lost: set<Cached>)
    | Complete(la: nat, p: Pa, kind: Kind, host: nat)
    | Violation(la: nat, p: Pa, kind: Kind)
    | Hide(exec: Pa, read: Pa)
    | Unhide

  /** The access can complete, at `host`, from a cached translation or by a walk of the tables. */
  ghost predicate CanComplete(m: Machine, la: nat, p: Pa, k: Kind, host: nat) {
    || (exists c :: c in m.cache && c.UsableFor(la, p) && Permits(c.access, k) && host == c.host * 0x1000 + p % 0x1000)
    || (var o := HookOutcome(m.hook, p); o.Mapped? && Permits(o.access, k) && host == o.host)
  }

  /** The access can raise an EPT violation: a cached translation or a walk of the tables denies it. */
  ghost predicate CanViolate(m: Machine, la: nat, p: Pa, k: Kind) {
    || (exists c :: c in m.cache && c.UsableFor(la, p) && !Permits(c.access, k))
    || (var o := HookOutcome(m.hook, p); !(o.Mapped? && Permits(o.access, k)))
  }

  /** What handle_ept_violation makes of the protocol state. */
  function AfterViolation(hook: Hook, k: Kind): Hook
    requires hook.Hidden?
  {
    hook.(dataView := k != Fetch)
  }

  /** An EPT violation drops the guest-physical mappings of the page and the combined mappings of the linear page.
      Combined mappings of other linear pages stay, however old they are. */
  ghost function AfterFault(cache: set<Cached>, la: nat, p: Pa): set<Cached> {
    set c | c in cache && !c.UsableFor(la, p)
  }

  /** One step.  The guest accesses physical addresses below 512GB, and hides a page only if none or the same is hidden.
      What a violation does when nothing is hidden is left open here; `Safety` shows that none occurs. */
  ghost predicate Step(m: Machine, e: Event, m': Machine) {
    match e
    case Fill(linear, p) =>
      var o := HookOutcome(m.hook, p);
      o.Mapped? && m' == m.(cache := m.cache + {Cached(linear, PageNumber(p, 0), o.host / 0x1000, o.access)})
    case Evict(lost) => m' == m.(cache := m.cache - lost)
    case Complete(la, p, k, host) => p < IDENTITY_LIMIT && CanComplete(m, la, p, k, host) && m' == m
    case Violation(la, p, k) =>
      && p < IDENTITY_LIMIT && CanViolate(m, la, p, k)
      && (m.hook.Hidden? ==> m' == Machine(AfterViolation(m.hook, k), AfterFault(m.cache, la, p)))
    case Hide(exec, read) =>
      && exec < IDENTITY_LIMIT && (m.hook.Idle? || m.hook.Hides(exec))
      && m' == Machine(Hidden(exec, read, false), {})
    case Unhide => m' == Machine(Idle, {})
  }

  /** A run of the machine from the state after setup: state `i` goes to state `i + 1` by event `i`. */
  ghost predicate Run(ms: seq<Machine>, es: seq<Event>) {
    && |ms| == |es| + 1 && ms[0] == BOOTED
    && forall i :: 0 <= i < |es| ==> Step(ms[i], es[i], ms[i + 1])
  }

  // -------- The invariant

  /** A cached translation is as old as the last INVEPT at most, so it is one of the two views of the hidden page, or an
      identity mapping of another page. */
  ghost predicate Sound(hook: Hook, c: Cached) {
    if hook.Hidden? && c.page == PageNumber(hook.exec, 0) then
      || (c.host == PageNumber(hook.exec, 0) && c.access == EXECUTE)
      || (c.host == PageNumber(hook.read, 0) && c.access == READ_WRITE)
    else
      c.host == c.page && c.access == READ_WRITE_EXECUTE
  }

  ghost predicate Inv(m: Machine) {
    m.hook.InRange() && forall c :: c in m.cache ==> Sound(m.hook, c)
  }

  lemma HostPage(base: Pa, p: Pa)
    ensures HostOf(base, p) / 0x1000 == PageNumber(base, 0)
    ensures PageNumber(base, 0) * 0x1000 + p % 0x1000 == HostOf(base, p)
    ensures SamePage(p, base, 0) ==> HostOf(base, p) == p
  {
  }

  lemma FillIsSound(m: Machine, linear: Option<nat>, p: Pa)
    requires m.hook.InRange() && HookOutcome(m.hook, p).Mapped?
    ensures var o := HookOutcome(m.hook, p);
            Sound(m.hook, Cached(linear, PageNumber(p, 0), o.host / 0x1000, o.access))
  {
    if m.hook.Hidden? {
      HostPage(m.hook.exec, p);
      HostPage(m.hook.read, p);
    }
  }

  /** A violation can only be on the hidden page, so the handler may ignore the faulting address. */
  lemma ViolationIsOnHiddenPage(m: Machine, la: nat, p: Pa, k: Kind)
    requires Inv(m) && p < IDENTITY_LIMIT && CanViolate(m, la, p, k)
    ensures m.hook.Hides(p)
  {
    forall c | c in m.cache && c.UsableFor(la, p) ensures m.hook.Hides(p) || Permits(c.access, k) {
      assert Sound(m.hook, c);
    }
  }

  lemma StepKeepsInv(m: Machine, e: Event, m': Machine)
    requires Inv(m) && Step(m, e, m')
    ensures Inv(m')
  {
    match e
    case Fill(linear, p) => FillIsSound(m, linear, p);
    case Violation(la, p, k) => ViolationIsOnHiddenPage(m, la, p, k);
    case _ =>
  }

  lemma CompletionIsExpected(m: Machine, la: nat, p: Pa, k: Kind, host: nat)
    requires Inv(m) && p < IDENTITY_LIMIT && CanComplete(m, la, p, k, host)
    ensures host == Expected(m.hook, p, k)
  {
    HostPage(p, p);
    if m.hook.Hidden? {
      HostPage(m.hook.exec, p);
      HostPage(m.hook.read, p);
    }
    if c :| c in m.cache && c.UsableFor(la, p) && Permits(c.access, k) && host == c.host * 0x1000 + p % 0x1000 {
      assert Sound(m.hook, c);
    }
  }

  lemma {:induction false} RunKeepsInv(ms: seq<Machine>, es: seq<Event>, i: nat)
    requires Run(ms, es) && i < |ms|
    ensures Inv(ms[i])
  {
    if i > 0 {
      RunKeepsInv(ms, es, i - 1);
      StepKeepsInv(ms[i - 1], es[i - 1], ms[i]);
    }
  }

  /** In every run, with any caching: each access that completes arrives where it has to, and each EPT violation is on
      the page that is hidden at that moment. */
  lemma Safety(ms: seq<Machine>, es: seq<Event>, i: nat)
    requires Run(ms, es) && i < |es|
    ensures es[i].Complete? ==>
              var h, p := ms[i].hook, es[i].p;
              es[i].host == if h.Hidden? && p / 0x1000 == h.exec / 0x1000 && es[i].kind != Fetch
                            then h.read / 0x1000 * 0x1000 + p % 0x1000 else p
    ensures es[i].Violation? ==> ms[i].hook.Hidden? && es[i].p / 0x1000 == ms[i].hook.exec / 0x1000
  {
    RunKeepsInv(ms, es, i);
    assert Step(ms[i], es[i], ms[i + 1]);
    match es[i]
    case Complete(la, p, k, host) => CompletionIsExpected(ms[i], la, p, k, host);
    case Violation(la, p, k) => ViolationIsOnHiddenPage(ms[i], la, p, k);
    case _ =>
  }

  // -------- Progress

  /** The access cannot fault any more: the tables permit it, and so does every cached translation it could use. */
  ghost predicate Settled(m: Machine, la: nat, p: Pa, k: Kind) {
    !CanViolate(m, la, p, k) && CanComplete(m, la, p, k, Expected(m.hook, p, k))
  }

  /** After at most one violation the retried access is permitted, and cannot raise another. */
  lemma ViolationSettles(m: Machine, la: nat, p: Pa, k: Kind, m': Machine)
    requires Inv(m) && Step(m, Violation(la, p, k), m')
    ensures Settled(m', la, p, k)
  {
    ViolationIsOnHiddenPage(m, la, p, k);
    HostPage(m.hook.exec, p);
  }

  /** The access needs the read-write view, or the execute-only view. */
  predicate SameView(k: Kind, l: Kind) {
    k == Fetch <==> l == Fetch
  }

  /** The events that may take the view an access needs away: a VMCALL, or a violation that needs the other view. */
  predicate TakesView(e: Event, k: Kind) {
    e.Hide? || e.Unhide? || (e.Violation? && !SameView(e.kind, k))
  }

  /** Nothing else brings the violation back: not the caches, and not a violation of the same view through any other
      address. */
  lemma SettledStays(m: Machine, la: nat, p: Pa, k: Kind, e: Event, m': Machine)
    requires Inv(m) && p < IDENTITY_LIMIT && Settled(m, la, p, k)
    requires m.hook.Hides(p) && Step(m, e, m') && !TakesView(e, k)
    ensures Settled(m', la, p, k) && m'.hook == m.hook
  {
    HostPage(p, p);
    HostPage(m.hook.exec, p);
    HostPage(m.hook.read, p);
    if e.Fill? { HostPage(m.hook.exec, e.p); }
    if e.Violation? { ViolationIsOnHiddenPage(m, e.la, e.p, e.kind); }
    forall c | c in m'.cache && c.UsableFor(la, p) ensures Permits(c.access, k) {
      if c !in m.cache { assert PageNumber(e.p, 0) == PageNumber(p, 0); }
    }
  }

  /** From the violation on the access stays settled as long as nothing takes its view away. */
  lemma {:induction false} SettledInRun(ms: seq<Machine>, es: seq<Event>, i: nat, j: nat)
    requires Run(ms, es) && i < j < |ms| && es[i].Violation?
    requires forall x :: i < x < j ==> !TakesView(es[x], es[i].kind)
    ensures ms[j].hook.Hides(es[i].p) && Settled(ms[j], es[i].la, es[i].p, es[i].kind)
  {
    var e := es[i];
    RunKeepsInv(ms, es, j - 1);
    assert Step(ms[j - 1], es[j - 1], ms[j]);
    if j == i + 1 {
      ViolationIsOnHiddenPage(ms[i], e.la, e.p, e.kind);
      ViolationSettles(ms[i], e.la, e.p, e.kind, ms[j]);
    } else {
      SettledInRun(ms, es, i, j - 1);
      SettledStays(ms[j - 1], e.la, e.p, e.kind, es[j - 1], ms[j]);
    }
  }

  /** Reads and writes need the same view: what settles one settles the other. */
  lemma SettledForView(m: Machine, la: nat, p: Pa, k: Kind, l: Kind)
    requires Inv(m) && m.hook.Hides(p) && p < IDENTITY_LIMIT && Settled(m, la, p, k) && SameView(k, l)
    ensures Settled(m, la, p, l)
  {
    forall c | c in m.cache && c.UsableFor(la, p) ensures Permits(c.access, l) {
      assert Sound(m.hook, c);
    }
  }

  /** Progress in every run: between two violations of an access there is an event that took its view away.  An access
      of one kind, retried, violates at most once. */
  lemma AtMostOneViolation(ms: seq<Machine>, es: seq<Event>, i: nat, j: nat)
    requires Run(ms, es) && i < j < |es| && es[i].Violation? && es[j].Violation?
    requires es[j].la == es[i].la && es[j].p == es[i].p && SameView(es[j].kind, es[i].kind)
    ensures exists x :: i < x < j && TakesView(es[x], es[i].kind)
  {
    assert Step(ms[i], es[i], ms[i + 1]) && Step(ms[j], es[j], ms[j + 1]);
    RunKeepsInv(ms, es, j);
    if forall x :: i < x < j ==> !TakesView(es[x], es[i].kind) {
      SettledInRun(ms, es, i, j);
      SettledForView(ms[j], es[i].la, es[i].p, es[i].kind, es[j].kind);
    }
  }

  // -------- Where the promises end

  /** No state of the tables serves both a fetch from the hidden page and a data access to it. */
  lemma NoViewServesBoth(hook: Hook, p: Pa, k: Kind)
    requires hook.Hides(p) && p < IDENTITY_LIMIT && k != Fetch
    ensures !(Permits(HookOutcome(hook, p).access, Fetch) && Permits(HookOutcome(hook, p).access, k))
  {
  }

  /** Once the handler ran, the tables permit the access exactly when its address is below 512GB: a violation above that
      limit is never resolved. */
  lemma HandlerHelpsOnlyBelowLimit(hook: Hook, p: Pa, k: Kind)
    requires hook.Hidden? && hook.InRange()
    ensures var o := HookOutcome(AfterViolation(hook, k), p);
            (o.Mapped? && Permits(o.access, k)) <==> p < IDENTITY_LIMIT
  {
  }

  /** The tables after handle_execute_vmcall hid `exec` in state `hook`: the old view with one more execute-only page.
      */
  function Overlay(hook: Hook, exec: Pa, p: Pa): Outcome {
    if SamePage(p, exec, 0) then Mapped(HostOf(exec, p), EXECUTE) else HookOutcome(hook, p)
  }

  /** Hiding leaves exactly one page hidden if and only if none, or the same page, was hidden before. */
  lemma HideNeedsFreeSlot(hook: Hook, exec: Pa, read: Pa)
    requires hook.InRange() && exec < IDENTITY_LIMIT
    ensures (forall p: Pa :: Overlay(hook, exec, p) == HookOutcome(Hidden(exec, read, false), p)) <==>
            hook.Idle? || hook.Hides(exec)
  {
    if hook.Hidden? && !hook.Hides(exec) {
      assert Overlay(hook, exec, hook.exec) == HookOutcome(hook, hook.exec);
      assert HookOutcome(Hidden(exec, read, false), hook.exec).access == READ_WRITE_EXECUTE;
    } else {
      forall p: Pa ensures Overlay(hook, exec, p) == HookOutcome(Hidden(exec, read, false), p) {
        PageNumberIsQuotient(p, 0);
        PageNumberIsQuotient(exec, 0);
      }
    }
  }
}
