/** What the Copy functions of disasm.cpp emit for a branch that moves to another address, and why the copy does what
    the original did. */
module Arm64Relocate {
  import Bits
  import opened Wrappers

  import opened Arm64Isa
  import opened Arm64Encode
  import opened Arm64Move

  /** The difference of two pointers, as a signed 64-bit number. */
  function Distance(target: X, from: X): (d: int)
    ensures -0x8000_0000_0000_0000 <= d < 0x8000_0000_0000_0000
  {
    SignExtend(Wrap(target - from), TWO64)
  }

  const BRANCH_RANGE: int := 0x8000000

  predicate Aligned(p: int) {
    p % 4 == 0
  }

  lemma DistanceReaches(target: X, from: X)
    ensures Wrap(from + Distance(target, from)) == target
    ensures Aligned(target) && Aligned(from) ==> Aligned(Distance(target, from))
  {
    WrapOnce(target - from);
    WrapOnce(from + Distance(target, from));
  }

  // -------- Conditional branches

  /** The condition of a B.cond, CBZ/CBNZ or TBZ/TBNZ.  The bit number of TBZ has five bits and the size bit above them.
      */
  datatype Test =
    | Flag(cond: nat)
    | Zero(size: nat, nz: nat, rt: nat)
    | Bit(size: nat, nz: nat, rt: nat, bit: nat)
  {
    predicate Valid() {
      match this
      case Flag(cond) => cond < 16
      case Zero(size, nz, rt) => size < 2 && nz < 2 && rt <= 31
      case Bit(size, nz, rt, bit) => size < 2 && nz < 2 && rt <= 31 && bit < 32
    }

    predicate Passes(c: Cpu)
      requires Valid() && c.Valid()
    {
      match this
      case Flag(cond) => Holds(cond, c.flags)
      case Zero(size, nz, rt) => CbzTaken(c, size == 1, nz == 1, rt)
      case Bit(size, nz, rt, bit) => TbzTaken(c, 32 * size + bit, nz == 1, rt)
    }

    /** The branch instruction with this condition. */
    function Branch(offset: int): Instr {
      match this
      case Flag(cond) => Bcond(cond, offset)
      case Zero(size, nz, rt) => Cbz(size == 1, nz == 1, rt, offset)
      case Bit(size, nz, rt, bit) => Tbz(32 * size + bit, nz == 1, rt, offset)
    }

    /** The condition with its lowest bit flipped. */
    function Flipped(): (t: Test)
      requires Valid()
      ensures t.Valid()
    {
      match this
      case Flag(cond) => Flag(if cond % 2 == 0 then cond + 1 else cond - 1)
      case Zero(size, nz, rt) => Zero(size, 1 - nz, rt)
      case Bit(size, nz, rt, bit) => Bit(size, 1 - nz, rt, bit)
    }

    /** The distance up to which the branch is copied as one instruction. */
    function NearRange(): (r: int)
      ensures 0x2000 <= r <= 0x100000
    {
      if Bit? then 0x2000 else 0x100000
    }

    /** The register the condition looks at, if any. */
    predicate Reads(r: nat) {
      !Flag? && rt == r
    }

    /** Whether flipping the lowest bit of the condition inverts it: not for the two codes that mean always. */
    predicate HasInverse() {
      Flag? ==> cond < 14
    }
  }

  predicate IsTest(i: Instr) {
    i.Bcond? || i.Cbz? || i.Tbz?
  }

  /** The condition of a decoded branch. */
  function TestOf(i: Instr): Test
    requires IsTest(i)
  {
    match i
    case Bcond(cond, _) => Flag(cond)
    case Cbz(wide, nz, rt, _) => Zero(Num(wide), Num(nz), rt)
    case Tbz(bit, nz, rt, _) => Bit(bit / 32, Num(nz), rt, bit % 32)
  }

  lemma TestOfBranch(i: Instr)
    requires IsTest(i) && WellFormed(i)
    ensures TestOf(i).Valid() && TestOf(i).Branch(i.offset) == i && Aligned(i.offset)
  {
  }

  lemma TestIsEncodable(t: Test, delta: int)
    requires t.Valid() && Aligned(delta) && Fits(delta, t.NearRange())
    ensures Encodable(t.Branch(delta)) && WellFormed(t.Branch(delta))
  {
  }

  lemma FlippedHolds(base: nat, f: Flags)
    requires base < 8
    ensures base < 7 ==> Holds(2 * base, f) == !Holds(2 * base + 1, f)
    ensures base == 7 ==> Holds(2 * base, f) && Holds(2 * base + 1, f)
  {
  }

  lemma FlippedPasses(t: Test, c: Cpu)
    requires t.Valid() && c.Valid()
    ensures t.HasInverse() ==> t.Flipped().Passes(c) == !t.Passes(c)
    ensures !t.HasInverse() ==> t.Passes(c) && t.Flipped().Passes(c)
  {
    hide Holds, Bits.Bit, Cpu.Reg;
    if t.Flag? {
      assert t.cond == 2 * (t.cond / 2) + t.cond % 2;
      FlippedHolds(t.cond / 2, c.flags);
    }
  }

  datatype Reach = Near | Middle | Far

  function ReachOf(t: Test, target: X, dest: X): Reach {
    if Fits(Distance(target, dest), t.NearRange()) then Near
    else if Fits(Distance(target, End(dest, 1)), BRANCH_RANGE) then Middle
    else Far
  }

  /** CopyBcc, CopyCbz and CopyTbz: the branch itself; the inverted branch around a B; or the target in x17 and the
      inverted branch around a BR. */
  function CopyTest(t: Test, target: X, dest: X): (code: seq<Instr>)
    requires t.Valid() && Aligned(target) && Aligned(dest)
    ensures 1 <= |code| <= 6
    ensures AllEncodable(code) && AllWellFormed(code)
  {
    match ReachOf(t, target, dest)
    case Near =>
      DistanceReaches(target, dest);
      TestIsEncodable(t, Distance(target, dest));
      [t.Branch(Distance(target, dest))]
    case Middle =>
      WrapAligned(dest + 4);
      DistanceReaches(target, End(dest, 1));
      TestIsEncodable(t.Flipped(), 8);
      [t.Flipped().Branch(8), B(false, Distance(target, End(dest, 1)))]
    case Far =>
      TestIsEncodable(t.Flipped(), 8);
      MoveImmediate(17, target) + [t.Flipped().Branch(8), Br(false, 17)]
  }

  /** The state `r` after the copy is what the branch would have made of state `c`: it is at the target or at the end of
      the copy, and nothing else changed, except x17 if `scratch` is set. */
  ghost predicate SameBranch(t: Test, target: X, end: X, scratch: bool, c: Cpu, r: Cpu)
    requires t.Valid() && c.Valid() && r.Valid()
  {
    && r == c.(x := r.x, pc := r.pc)
    && r.pc == (if t.Passes(c) then target else end)
    && (forall k :: 0 <= k < 31 && (k != 17 || !scratch) ==> r.x[k] == c.x[k])
  }

  lemma ExecuteTest(t: Test, delta: int, c: Cpu)
    requires t.Valid() && c.Valid() && WellFormed(t.Branch(delta))
    ensures Execute(t.Branch(delta), c) ==
            if t.Passes(c) then (c.(pc := Wrap(c.pc + delta)), true) else (c.Next(), false)
  {
  }

  lemma PassesIgnoresPc(t: Test, c: Cpu, pc: X)
    requires t.Valid() && c.Valid()
    ensures t.Passes(c.(pc := pc)) == t.Passes(c)
  {
  }

  lemma CopyNear(t: Test, target: X, dest: X, c: Cpu)
    requires t.Valid() && c.Valid() && Aligned(target) && Aligned(dest) && ReachOf(t, target, dest) == Near
    ensures SameBranch(t, target, End(dest, |CopyTest(t, target, dest)|), false, c,
                       Run(CopyTest(t, target, dest), c.(pc := dest)).0)
  {
    DistanceReaches(target, dest);
    var d := Distance(target, dest);
    TestIsEncodable(t, d);
    ExecuteTest(t, d, c.(pc := dest));
    RunOne(t.Branch(d), c.(pc := dest));
    PassesIgnoresPc(t, c, dest);
  }

  /** A branch over one other branch. */
  lemma RunAround(v: Instr, w: Instr, c: Cpu, passes: bool, end: X, target: X)
    requires c.Valid() && WellFormed(v) && WellFormed(w)
    requires Execute(v, c) == if passes then (c.(pc := end), true) else (c.Next(), false)
    requires Execute(w, c.Next()) == (c.(pc := target), true)
    ensures Run([v, w], c) == (c.(pc := if passes then end else target), true)
  {
    RunTwo(v, w, c);
  }

  /** Where the middle form leads: to the end if the flipped condition passes, and to the target otherwise. */
  lemma CopyMiddleRuns(t: Test, target: X, dest: X, c: Cpu)
    requires t.Valid() && c.Valid() && Aligned(target) && Aligned(dest) && ReachOf(t, target, dest) == Middle
    ensures |CopyTest(t, target, dest)| == 2
    ensures Run(CopyTest(t, target, dest), c.(pc := dest)) ==
            (c.(pc := if t.Flipped().Passes(c) then End(dest, 2) else target), true)
  {
    hide Run, Distance, Wrap, Test.Passes, MoveImmediate;
    WrapAligned(dest + 4);
    DistanceReaches(target, End(dest, 1));
    var d := Distance(target, End(dest, 1));
    var c0 := c.(pc := dest);
    TestIsEncodable(t.Flipped(), 8);
    ExecuteTest(t.Flipped(), 8, c0);
    RunAround(t.Flipped().Branch(8), B(false, d), c0, t.Flipped().Passes(c0), End(dest, 2), target);
    PassesIgnoresPc(t.Flipped(), c, dest);
  }

  /** The last two instructions of the far form, with the target in x17. */
  lemma RunIndirect(t: Test, target: X, c: Cpu)
    requires t.Valid() && c.Valid() && c.x[17] == target
    ensures WellFormed(t.Branch(8))
    ensures Run([t.Branch(8), Br(false, 17)], c) == (c.(pc := if t.Passes(c) then End(c.pc, 2) else target), true)
  {
    TestIsEncodable(t, 8);
    ExecuteTest(t, 8, c);
    RunAround(t.Branch(8), Br(false, 17), c, t.Passes(c), End(c.pc, 2), target);
  }

  /** Where the far form leads, and what the moved target does to the tested register. */
  lemma CopyFarRuns(t: Test, target: X, dest: X, c: Cpu)
    requires t.Valid() && c.Valid() && Aligned(target) && Aligned(dest) && ReachOf(t, target, dest) == Far
    ensures var code := CopyTest(t, target, dest);
            var c1 := c.Set(17, target);
            Run(code, c.(pc := dest)) ==
            (c1.(pc := if t.Flipped().Passes(c1) then End(dest, |code|) else target), true)
  {
    var f := t.Flipped();
    var n, rest, c0 := |MoveImmediate(17, target)|, [f.Branch(8), Br(false, 17)], c.(pc := dest);
    TestIsEncodable(f, 8);
    MoveThen(17, target, rest, c0);
    var c1 := Moved(c0, 17, target, n);
    RunIndirect(f, target, c1);
    EndPlus(dest, n, 2);
    PassesIgnoresPc(f, c.Set(17, target), c1.pc);
    assert c1 == c.Set(17, target).(pc := c1.pc);
  }

  lemma PassesIgnoresX17(t: Test, v: X, c: Cpu)
    requires t.Valid() && c.Valid() && !t.Reads(17)
    ensures t.Passes(c.Set(17, v)) == t.Passes(c)
  {
  }

  /** When the copy is right for every machine state. */
  predicate Faithful(t: Test, reach: Reach) {
    reach == Near || (t.HasInverse() && (reach == Middle || !t.Reads(17)))
  }

  lemma FaithfulCopy(t: Test, target: X, dest: X, c: Cpu)
    requires t.Valid() && c.Valid() && Aligned(target) && Aligned(dest)
    requires Faithful(t, ReachOf(t, target, dest))
    ensures SameBranch(t, target, End(dest, |CopyTest(t, target, dest)|), ReachOf(t, target, dest) == Far, c,
                       Run(CopyTest(t, target, dest), c.(pc := dest)).0)
  {
    match ReachOf(t, target, dest)
    case Near => CopyNear(t, target, dest, c);
    case Middle =>
      CopyMiddleRuns(t, target, dest, c);
      FlippedPasses(t, c);
    case Far =>
      CopyFarRuns(t, target, dest, c);
      FlippedPasses(t, c.Set(17, target));
      PassesIgnoresX17(t, target, c);
  }

  // -------- The cases where the copy is wrong

  lemma EndDistance(dest: X, n: nat)
    requires n <= 6
    ensures Distance(End(dest, n), dest) == 4 * n
  {
    WrapOnce(dest + 4 * n);
    WrapOnce(End(dest, n) - dest);
  }

  /** A target beyond the near range is not the end of the copy. */
  lemma BeyondEnd(t: Test, target: X, dest: X, n: nat)
    requires ReachOf(t, target, dest) != Near && n <= 6
    ensures End(dest, n) != target
  {
    EndDistance(dest, n);
  }

  lemma PowerFits(k: nat)
    requires k <= 63
    ensures Bits.Pow2(k) < TWO64
  {
    Bits.PowersOfTwo();
    Bits.Pow2Monotone(k, 63);
  }

  /** A value of the tested register for which the original branch and the copy that tests `target` instead differ. */
  function Spoiler(t: Test, target: X): X
    requires t.Valid() && !t.Flag?
  {
    match t
    case Zero(size, nz, rt) => if (if size == 1 then target == 0 else target % TWO32 == 0) then 1 else 0
    case Bit(size, nz, rt, bit) =>
      PowerFits(32 * size + bit);
      if Bits.Bit(target, 32 * size + bit) then 0 else Bits.Pow2(32 * size + bit)
  }

  lemma SpoilerSpoils(t: Test, target: X, c: Cpu)
    requires t.Valid() && !t.Flag? && t.rt == 17 && c.Valid()
    ensures t.Passes(c.Set(17, Spoiler(t, target))) != t.Passes(c.Set(17, target))
  {
    if t.Bit? {
      Bits.ZeroBit(32 * t.size + t.bit);
      Bits.PowerHasBit(32 * t.size + t.bit);
    }
  }

  /** A state in which no byte is set, or only the one at an address. */
  function Quiet(mark: Option<X>): (c: Cpu)
    ensures c.Valid()
  {
    Cpu(seq(31, _ => 0), 0, seq(32, _ => 0), (a: X) => if mark == Some(a) then 1 else 0,
        Flags(false, false, false, false), 0)
  }

  /** The copy works in state `c`, x17 aside. */
  ghost predicate Works(t: Test, target: X, dest: X, c: Cpu)
    requires t.Valid() && Aligned(target) && Aligned(dest) && c.Valid()
  {
    var code := CopyTest(t, target, dest);
    SameBranch(t, target, End(dest, |code|), true, c, RunWords(EncodeAll(code), c.(pc := dest)).0)
  }

  /** Beyond the near range, an always-condition goes wrong in every state. */
  lemma AlwaysFails(t: Test, target: X, dest: X, c: Cpu)
    requires t.Valid() && Aligned(target) && Aligned(dest) && c.Valid()
    requires ReachOf(t, target, dest) != Near && !t.HasInverse()
    ensures !Works(t, target, dest, c)
  {
    var code := CopyTest(t, target, dest);
    BeyondEnd(t, target, dest, |code|);
    RunEncoded(code, c.(pc := dest));
    FlippedPasses(t, c);
    if ReachOf(t, target, dest) == Middle {
      CopyMiddleRuns(t, target, dest, c);
    } else {
      CopyFarRuns(t, target, dest, c);
      FlippedPasses(t, c.Set(17, target));
    }
  }

  /** Far away, a test of x17 goes wrong in some state. */
  lemma TestOfX17Fails(t: Test, target: X, dest: X)
    requires t.Valid() && Aligned(target) && Aligned(dest)
    requires ReachOf(t, target, dest) == Far && t.Reads(17)
    ensures !Works(t, target, dest, Quiet(None).Set(17, Spoiler(t, target)))
  {
    var code := CopyTest(t, target, dest);
    var c := Quiet(None).Set(17, Spoiler(t, target));
    BeyondEnd(t, target, dest, |code|);
    RunEncoded(code, c.(pc := dest));
    CopyFarRuns(t, target, dest, c);
    assert c.Set(17, target) == Quiet(None).Set(17, target) by {
      assert c.x[17 := target] == Quiet(None).x[17 := target];
    }
    FlippedPasses(t, Quiet(None).Set(17, target));
    SpoilerSpoils(t, target, Quiet(None));
  }

  /** The copy of a conditional branch does what the original did, in every machine state, if and only if it stays one
      instruction, or its condition can be inverted and (for a target too far for a direct branch) is not on x17. */
  lemma CopyTestCorrectness(t: Test, target: X, dest: X)
    requires t.Valid() && Aligned(target) && Aligned(dest)
    ensures (forall c: Cpu :: c.Valid() ==> Works(t, target, dest, c)) <==> Faithful(t, ReachOf(t, target, dest))
  {
    if Faithful(t, ReachOf(t, target, dest)) {
      forall c: Cpu | c.Valid() ensures Works(t, target, dest, c) {
        FaithfulCopy(t, target, dest, c);
        RunEncoded(CopyTest(t, target, dest), c.(pc := dest));
      }
    } else if !t.HasInverse() {
      AlwaysFails(t, target, dest, Quiet(None));
    } else {
      TestOfX17Fails(t, target, dest);
    }
  }

  /** A copy that is faithful leaves x17 alone unless the target is far. */
  lemma CopyTestScratch(t: Test, target: X, dest: X, c: Cpu)
    requires t.Valid() && c.Valid() && Aligned(target) && Aligned(dest)
    requires Faithful(t, ReachOf(t, target, dest))
    ensures var code := CopyTest(t, target, dest);
            SameBranch(t, target, End(dest, |code|), ReachOf(t, target, dest) == Far, c,
                       RunWords(EncodeAll(code), c.(pc := dest)).0)
  {
    FaithfulCopy(t, target, dest, c);
    RunEncoded(CopyTest(t, target, dest), c.(pc := dest));
  }

  // -------- B and BL

  function CopyBranch(link: bool, target: X, dest: X): (code: seq<Instr>)
    requires Aligned(target) && Aligned(dest)
    ensures 1 <= |code| <= 5
    ensures AllEncodable(code) && AllWellFormed(code)
  {
    DistanceReaches(target, dest);
    if Fits(Distance(target, dest), BRANCH_RANGE) then [B(link, Distance(target, dest))]
    else MoveImmediate(17, target) + [Br(link, 17)]
  }

  /** The state after the copy of B or BL: at the target, with the address after the copy in x30 for BL, and with
      everything else as before, except x17 if `scratch` is set. */
  ghost predicate Branched(link: bool, target: X, end: X, scratch: bool, c: Cpu, r: Cpu)
    requires c.Valid() && r.Valid()
  {
    && r == c.(x := r.x, pc := r.pc)
    && r.pc == target
    && (link ==> r.x[30] == end)
    && (forall k :: 0 <= k < 31 && !(link && k == 30) && (k != 17 || !scratch) ==> r.x[k] == c.x[k])
  }

  lemma BranchFarRuns(link: bool, target: X, dest: X, c: Cpu)
    requires c.Valid() && c.pc == dest
    ensures var n := |MoveImmediate(17, target)|;
            var r := Run(MoveImmediate(17, target) + [Br(link, 17)], c);
            r.1 && Branched(link, target, End(dest, n + 1), true, c, r.0)
  {
    hide Wrap, MoveImmediate, Run;
    var n := |MoveImmediate(17, target)|;
    MoveThen(17, target, [Br(link, 17)], c);
    RunOne(Br(link, 17), Moved(c, 17, target, n));
    EndPlus(dest, n, 1);
  }

  lemma BranchRuns(link: bool, target: X, dest: X, c: Cpu)
    requires c.Valid() && c.pc == dest && Aligned(target) && Aligned(dest)
    ensures var code := CopyBranch(link, target, dest);
            var r := Run(code, c);
            r.1 && Branched(link, target, End(dest, |code|), !Fits(Distance(target, dest), BRANCH_RANGE), c, r.0)
  {
    hide Run, Distance, Wrap, MoveImmediate;
    if Fits(Distance(target, dest), BRANCH_RANGE) {
      DistanceReaches(target, dest);
      RunOne(B(link, Distance(target, dest)), c);
    } else {
      BranchFarRuns(link, target, dest, c);
    }
  }

  /** At every distance the copy of B or BL goes to the target; BL leaves the address after the copy in x30; and nothing
      else changes, except x17 when the target is far. */
  lemma CopyBranchCorrect(link: bool, target: X, dest: X, c: Cpu)
    requires c.Valid() && Aligned(target) && Aligned(dest)
    ensures var code := CopyBranch(link, target, dest);
            var r := RunWords(EncodeAll(code), c.(pc := dest));
            r.1 && Branched(link, target, End(dest, |code|), !Fits(Distance(target, dest), BRANCH_RANGE), c, r.0)
  {
    BranchRuns(link, target, dest, c.(pc := dest));
    RunEncoded(CopyBranch(link, target, dest), c.(pc := dest));
  }

  // -------- ADR and ADRP

  const ADR_RANGE: int := 0x100000

  function PageDistance(target: X, dest: X): int {
    target / 0x1000 - dest / 0x1000
  }

  /** CopyAdr for ADR.  The page form adds the page offset with a 32-bit ADD. */
  function CopyAdr(rd: nat, target: X, dest: X): (code: seq<Instr>)
    requires rd <= 31
    ensures 1 <= |code| <= 4
    ensures AllEncodable(code) && AllWellFormed(code)
  {
    if Fits(Distance(target, dest), ADR_RANGE) then [Adr(rd, Distance(target, dest))]
    else if Fits(PageDistance(target, dest), ADR_RANGE) then
      [Adrp(rd, PageDistance(target, dest)), AddImm(false, rd, rd, target % 0x1000)]
    else MoveImmediate(rd, target)
  }

  /** CopyAdr for ADRP, whose target is the base of a page. */
  function CopyAdrp(rd: nat, target: X, dest: X): (code: seq<Instr>)
    requires rd <= 31
    ensures 1 <= |code| <= 4
    ensures AllEncodable(code) && AllWellFormed(code)
  {
    if Fits(PageDistance(target, dest), ADR_RANGE) then [Adrp(rd, PageDistance(target, dest))]
    else MoveImmediate(rd, target)
  }

  /** The code puts the address in the register, changes nothing else and falls to its end. */
  ghost predicate LoadsAddress(rd: nat, address: X, dest: X, code: seq<Instr>, c: Cpu)
    requires c.Valid() && rd <= 31 && AllEncodable(code)
  {
    RunWords(EncodeAll(code), c.(pc := dest)) == (Moved(c.(pc := dest), rd, address, |code|), false)
  }

  function PageBase(p: X): X {
    p - p % 0x1000
  }

  lemma PageReach(target: X, dest: X)
    ensures Wrap((dest / 0x1000 + PageDistance(target, dest)) * 0x1000) == PageBase(target)
  {
    assert (dest / 0x1000 + PageDistance(target, dest)) * 0x1000 == PageBase(target);
  }

  lemma ExecuteAdrp(rd: nat, target: X, c: Cpu)
    requires c.Valid() && rd <= 31
    ensures Execute(Adrp(rd, PageDistance(target, c.pc)), c) == (Moved(c, rd, PageBase(target), 1), false)
  {
    PageReach(target, c.pc);
  }

  /** Relocated ADRP always yields the same page address. */
  lemma CopyAdrpCorrect(rd: nat, target: X, dest: X, c: Cpu)
    requires c.Valid() && rd <= 31 && target % 0x1000 == 0
    ensures LoadsAddress(rd, target, dest, CopyAdrp(rd, target, dest), c)
  {
    var c0 := c.(pc := dest);
    if Fits(PageDistance(target, dest), ADR_RANGE) {
      ExecuteAdrp(rd, target, c0);
      RunOne(Adrp(rd, PageDistance(target, dest)), c0);
    } else {
      MoveRuns(rd, target, c0);
    }
    RunEncoded(CopyAdrp(rd, target, dest), c0);
  }

  predicate Paged(target: X, dest: X) {
    !Fits(Distance(target, dest), ADR_RANGE) && Fits(PageDistance(target, dest), ADR_RANGE)
  }

  /** The state after the addition of the page form.  It has 32 bits, and register number 31 is the stack pointer in it.
      */
  function PageOffsetAdded(rd: nat, target: X, c: Cpu): (r: Cpu)
    requires c.Valid() && rd <= 31
    ensures r.Valid()
  {
    if rd < 31 then Moved(c, rd, target % TWO32, 1)
    else c.(sp := (c.sp + target % 0x1000) % TWO32, pc := End(c.pc, 1))
  }

  lemma ExecuteAdd32(rd: nat, target: X, c: Cpu)
    requires c.Valid() && rd <= 31 && (rd < 31 ==> c.x[rd] == PageBase(target))
    ensures Execute(AddImm(false, rd, rd, target % 0x1000), c) == (PageOffsetAdded(rd, target, c), false)
  {
  }

  /** The state after the page form. */
  function PagedTo(rd: nat, target: X, c: Cpu): (r: Cpu)
    requires c.Valid() && rd <= 31
    ensures r.Valid()
  {
    PageOffsetAdded(rd, target, Moved(c, rd, PageBase(target), 1))
  }

  lemma CopyAdrPagedRuns(rd: nat, target: X, c: Cpu)
    requires c.Valid() && rd <= 31
    ensures Run([Adrp(rd, PageDistance(target, c.pc)), AddImm(false, rd, rd, target % 0x1000)], c)
         == (PagedTo(rd, target, c), false)
  {
    hide Execute, PageOffsetAdded, PageBase, PageDistance;
    var add := AddImm(false, rd, rd, target % 0x1000);
    var c1, c2 := Moved(c, rd, PageBase(target), 1), PagedTo(rd, target, c);
    ExecuteAdrp(rd, target, c);
    ExecuteAdd32(rd, target, c1);
    RunTwoStraight(Adrp(rd, PageDistance(target, c.pc)), add, c, c1, c2);
  }

  /** The address has 32 bits; for register 31 the stack pointer stays. */
  predicate PagedIsRight(rd: nat, target: X, sp: X) {
    if rd < 31 then target < TWO32 else (sp + target % 0x1000) % TWO32 == sp
  }

  lemma PagedToIff(rd: nat, target: X, c: Cpu)
    requires c.Valid() && rd <= 31
    ensures PagedTo(rd, target, c) == Moved(c, rd, target, 2) <==> PagedIsRight(rd, target, c.sp)
  {
    EndPlus(c.pc, 1, 1);
    hide End;
    if rd < 31 {
      MovedTwice(c, rd, PageBase(target), target % TWO32, 1, 1);
      assert Moved(c, rd, target % TWO32, 2).x[rd] == target % TWO32;
      assert Moved(c, rd, target, 2).x[rd] == target;
    }
  }

  /** The state after the copy of ADR, started in state `c`. */
  function AdrCopied(rd: nat, target: X, dest: X, c: Cpu): (r: Cpu)
    requires c.Valid() && rd <= 31
    ensures r.Valid()
  {
    var c0 := c.(pc := dest);
    if Paged(target, dest) then PagedTo(rd, target, c0)
    else Moved(c0, rd, target, |CopyAdr(rd, target, dest)|)
  }

  lemma PagedLength(rd: nat, target: X, dest: X)
    requires rd <= 31
    ensures Paged(target, dest) ==> |CopyAdr(rd, target, dest)| == 2
  {
    hide Distance, PageDistance;
  }

  lemma CopyAdrRuns(rd: nat, target: X, dest: X, c: Cpu)
    requires c.Valid() && rd <= 31
    ensures RunWords(EncodeAll(CopyAdr(rd, target, dest)), c.(pc := dest)) == (AdrCopied(rd, target, dest, c), false)
  {
    var c0 := c.(pc := dest);
    if Fits(Distance(target, dest), ADR_RANGE) {
      DistanceReaches(target, dest);
      RunOne(Adr(rd, Distance(target, dest)), c0);
    } else if Fits(PageDistance(target, dest), ADR_RANGE) {
      CopyAdrPagedRuns(rd, target, c0);
    } else {
      MoveRuns(rd, target, c0);
    }
    RunEncoded(CopyAdr(rd, target, dest), c0);
  }

  /** Relocated ADR yields the same address if and only if the page form is not taken, or the address has 32 bits; and
      with register 31, for which ADR does nothing, the page form has to leave the stack pointer as it is. */
  lemma CopyAdrCorrectness(rd: nat, target: X, dest: X, c: Cpu)
    requires c.Valid() && rd <= 31
    ensures LoadsAddress(rd, target, dest, CopyAdr(rd, target, dest), c) <==>
            !Paged(target, dest) || PagedIsRight(rd, target, c.sp)
  {
    PagedLength(rd, target, dest);
    hide RunWords, PagedTo, PagedIsRight, Moved, Paged, CopyAdr, EncodeAll;
    CopyAdrRuns(rd, target, dest, c);
    PagedToIff(rd, target, c.(pc := dest));
  }

  // -------- Loads of literals

  /** CopyLdrLiteral takes a distance of this size for one that a load of a literal reaches, ... */
  const LDR_TEST: int := 0x200000
  /** ... which reaches half as far. */
  const LDR_RANGE: int := 0x100000

  /** The offset in the instruction, of which the encoding union keeps 19 bits. */
  function LiteralOffset(delta: int): (d: int)
    ensures Aligned(d) && Fits(d, LDR_RANGE)
  {
    4 * SignExtend(ImmField(delta, 0x80000), 0x80000)
  }

  lemma LiteralOffsetKept(delta: int)
    requires Aligned(delta) && Fits(delta, LDR_TEST)
    ensures LiteralOffset(delta) == if Fits(delta, LDR_RANGE) then delta
                                    else if delta < 0 then delta + LDR_TEST else delta - LDR_TEST
    ensures ImmField(LiteralOffset(delta), 0x80000) == ImmField(delta, 0x80000)
  {
  }

  /** CopyLdrLiteral: the load itself; the value that is in memory now, as an immediate; or, for a vector register, a
      load from the address in x17.  A prefetch counts as a load of the value zero. */
  function CopyLdrLiteral(size: nat, vector: bool, rt: nat, target: X, dest: X, mem: Memory): (code: seq<Instr>)
    requires size < 4 && rt <= 31
    ensures 1 <= |code| <= 5
    ensures AllEncodable(code) && AllWellFormed(code)
  {
    var delta := Distance(target, dest);
    if Fits(delta, LDR_TEST) then [LdrLit(size, vector, rt, LiteralOffset(delta))]
    else if !vector then MoveImmediate(rt, if size < 3 then Literal(mem, size, target) else 0)
    else MoveImmediate(17, target) + [LdrVector(size, rt, 17)]
  }

  predicate LoadsNothing(size: nat, vector: bool, rt: nat) {
    size == 3 || (!vector && rt == 31)
  }

  /** When the copy of a load is right for every machine state. */
  predicate LiteralIsSound(size: nat, vector: bool, rt: nat, target: X, dest: X) {
    var delta := Distance(target, dest);
    if Fits(delta, LDR_TEST) then Fits(delta, LDR_RANGE) || LoadsNothing(size, vector, rt)
    else vector || size < 3 || rt == 31
  }

  /** The state `r` is the one after the load, at the end of the copy, except for x17 if `scratch` is set. */
  ghost predicate SameLoad(size: nat, vector: bool, rt: nat, target: X, end: X, scratch: bool, c: Cpu, r: Cpu)
    requires c.Valid() && r.Valid() && size < 4 && rt <= 31
  {
    var s := c.LoadFrom(target, size, vector, rt);
    && r == s.(x := r.x, pc := end)
    && (forall k :: 0 <= k < 31 && (k != 17 || !scratch) ==> r.x[k] == s.x[k])
  }

  lemma LiteralNearRuns(size: nat, vector: bool, rt: nat, target: X, dest: X, c: Cpu)
    requires c.Valid() && size < 4 && rt <= 31 && Fits(Distance(target, dest), LDR_TEST)
    ensures Run(CopyLdrLiteral(size, vector, rt, target, dest, c.mem), c.(pc := dest)).0
         == c.LoadFrom(Wrap(dest + LiteralOffset(Distance(target, dest))), size, vector, rt).(pc := End(dest, 1))
  {
    hide LiteralOffset, Distance, Wrap, Load, Literal, MoveImmediate;
    RunOne(LdrLit(size, vector, rt, LiteralOffset(Distance(target, dest))), c.(pc := dest));
  }

  lemma LiteralFarRuns(size: nat, rt: nat, target: X, dest: X, c: Cpu)
    requires c.Valid() && size < 4 && rt <= 31
    ensures Run(MoveImmediate(17, target) + [LdrVector(size, rt, 17)], c.(pc := dest)).0
         == c.Set(17, target).LoadFrom(target, size, true, rt).(pc := End(dest, |MoveImmediate(17, target)| + 1))
  {
    var n, c0 := |MoveImmediate(17, target)|, c.(pc := dest);
    MoveThen(17, target, [LdrVector(size, rt, 17)], c0);
    RunOne(LdrVector(size, rt, 17), Moved(c0, 17, target, n));
    EndPlus(dest, n, 1);
  }

  lemma SoundLiteral(size: nat, vector: bool, rt: nat, target: X, dest: X, c: Cpu)
    requires c.Valid() && size < 4 && rt <= 31 && Aligned(target) && Aligned(dest)
    requires LiteralIsSound(size, vector, rt, target, dest)
    ensures var code := CopyLdrLiteral(size, vector, rt, target, dest, c.mem);
      SameLoad(size, vector, rt, target, End(dest, |code|), vector && !Fits(Distance(target, dest), LDR_TEST), c,
               Run(code, c.(pc := dest)).0)
  {
    hide Distance, Wrap, End, Load, Literal, MoveImmediate, Run, LiteralOffset, Aligned, Cpu.Set;
    DistanceReaches(target, dest);
    if Fits(Distance(target, dest), LDR_TEST) {
      LiteralOffsetKept(Distance(target, dest));
      LiteralNearRuns(size, vector, rt, target, dest, c);
    } else if vector {
      LiteralFarRuns(size, rt, target, dest, c);
    } else {
      MoveRuns(rt, if size < 3 then Literal(c.mem, size, target) else 0, c.(pc := dest));
    }
  }

  /** Distances between the two limits reach another address. */
  lemma BeyondLiteral(target: X, dest: X)
    requires Aligned(target) && Aligned(dest)
    requires Fits(Distance(target, dest), LDR_TEST) && !Fits(Distance(target, dest), LDR_RANGE)
    ensures Wrap(dest + LiteralOffset(Distance(target, dest))) != target
  {
    DistanceReaches(target, dest);
    LiteralOffsetKept(Distance(target, dest));
    WrapOnce(dest + Distance(target, dest));
    WrapOnce(dest + LiteralOffset(Distance(target, dest)));
  }

  lemma LowByte(n: nat)
    requires n < TWO32
    ensures Wrap(SignExtend(n, TWO32)) % 0x100 == n % 0x100
  {
  }

  lemma LiteralByte(mem: Memory, size: nat, at: X)
    requires size < 3
    ensures Literal(mem, size, at) % 0x100 == mem(at)
  {
    assert Load(mem, at, 4) % 0x100 == mem(at) && Load(mem, at, 8) % 0x100 == mem(at);
    if size == 2 {
      LowByte(Load(mem, at, 4));
    }
  }

  lemma LoadTellsApart(size: nat, vector: bool, rt: nat, at: X, other: X)
    requires size < 4 && rt <= 31 && !LoadsNothing(size, vector, rt) && at != other
    ensures var c := Quiet(Some(at));
      var s, r := c.LoadFrom(at, size, vector, rt), c.LoadFrom(other, size, vector, rt);
      s.v[rt] != r.v[rt] || (rt < 31 && s.x[rt] != r.x[rt])
  {
    var mem := Quiet(Some(at)).mem;
    if vector {
      assert Load(mem, at, VectorBytes(size)) % 0x100 == 1 && Load(mem, other, VectorBytes(size)) % 0x100 == 0;
    } else {
      LiteralByte(mem, size, at);
      LiteralByte(mem, size, other);
    }
  }
}
