/** The A64 instructions that the relocation code reads or emits, as the Arm Architecture Reference Manual (DDI 0487,
    section C6.2) defines them: decoding of instruction words, and execution. */
module Arm64Isa {
  import Bits
  import opened ByteBuffer

  const TWO32: int := 0x1_0000_0000
  const TWO64: int := 0x1_0000_0000_0000_0000

  type Word = w: int | 0 <= w < 0x1_0000_0000
  type X = x: int | 0 <= x < 0x1_0000_0000_0000_0000

  /** Arithmetic on 64-bit registers and addresses wraps around: the remainder by 2^64. */
  function Wrap(n: int): X
    decreases n < 0, if n < 0 then -n else n
  {
    if n < 0 then Wrap(n + TWO64) else if n >= TWO64 then Wrap(n - TWO64) else n
  }

  /** The value of an unsigned field of the given span, read as a signed number. */
  function SignExtend(field: int, span: int): int {
    if 2 * field < span then field else field - span
  }

  datatype Flags = Flags(n: bool, z: bool, c: bool, v: bool)

  /** The address `n` instructions after `pc`. */
  function End(pc: X, n: nat): X {
    Wrap(pc + 4 * n)
  }

  type Memory = X -> Byte

  /** The number in `n` bytes of memory, the lowest first. */
  function Load(mem: Memory, at: X, n: nat): (v: nat)
    ensures v < Limit(n)
    ensures n > 0 ==> v % 0x100 == mem(at)
    decreases n
  {
    if n == 0 then 0 else mem(at) + 0x100 * Load(mem, Wrap(at + 1), n - 1)
  }

  /** What LDR Wt, LDR Xt and LDRSW load, by the size field. */
  function Literal(mem: Memory, size: nat, at: X): X
    requires size < 3
  {
    Limits();
    if size == 0 then Load(mem, at, 4)
    else if size == 1 then Load(mem, at, 8)
    else Wrap(SignExtend(Load(mem, at, 4), TWO32))
  }

  /** The length of St, Dt and Qt, by the size field. */
  function VectorBytes(size: nat): nat {
    if size == 0 then 4 else if size == 1 then 8 else 16
  }

  /** x0 to x30, the stack pointer, the vector registers, the memory, the condition flags and the program counter. */
  datatype Cpu = Cpu(x: seq<X>, sp: X, v: seq<nat>, mem: Memory, flags: Flags, pc: X) {

    predicate Valid() {
      |x| == 31 && |v| == 32
    }

    /** Register number 31 reads as zero. */
    function Reg(r: nat): X
      requires Valid() && r <= 31
    {
      if r == 31 then 0 else x[r]
    }

    function Set(r: nat, value: X): (c: Cpu)
      requires Valid() && r <= 31
      ensures c.Valid() && c == this.(x := c.x)
      ensures r < 31 ==> c.x == x[r := value]
      ensures r == 31 ==> c == this
    {
      if r == 31 then this else this.(x := x[r := value])
    }

    /** As a base or in an addition, register number 31 is the stack pointer. */
    function Base(r: nat): X
      requires Valid() && r <= 31
    {
      if r == 31 then sp else x[r]
    }

    function SetBase(r: nat, value: X): (c: Cpu)
      requires Valid() && r <= 31
      ensures c.Valid()
    {
      if r == 31 then this.(sp := value) else Set(r, value)
    }

    /** A load by its size field: a prefetch and a reserved size are taken to do nothing. */
    function LoadFrom(at: X, size: nat, vector: bool, rt: nat): (c: Cpu)
      requires Valid() && rt <= 31 && size < 4
      ensures c.Valid() && c.pc == pc
    {
      if size == 3 then this
      else if vector then this.(v := v[rt := Load(mem, at, VectorBytes(size))])
      else Set(rt, Literal(mem, size, at))
    }

    function Next(): (c: Cpu)
      ensures c == this.(pc := c.pc)
    {
      this.(pc := End(pc, 1))
    }
  }

  datatype Instr =
    | Movn(wide: bool, rd: nat, imm: nat, hw: nat)
    | Movz(wide: bool, rd: nat, imm: nat, hw: nat)
    | Movk(wide: bool, rd: nat, imm: nat, hw: nat)
    | Adr(rd: nat, offset: int)
    | Adrp(rd: nat, pages: int)
    | AddImm(wide: bool, rd: nat, rn: nat, imm: nat)
    | Bcond(cond: nat, offset: int)
    | B(link: bool, offset: int)
    | Br(link: bool, rn: nat)
    | Cbz(wide: bool, nz: bool, rt: nat, offset: int)
    | Tbz(bit: nat, nz: bool, rt: nat, offset: int)
    | LdrLit(size: nat, vector: bool, rt: nat, offset: int)
    | LdrVector(size: nat, rt: nat, rn: nat)
    | Other(word: Word)

  // -------- Decoding

  predicate WellFormed(i: Instr) {
    match i
    case Movn(_, rd, imm, hw) => rd <= 31 && imm < 0x10000 && hw <= 3
    case Movz(_, rd, imm, hw) => rd <= 31 && imm < 0x10000 && hw <= 3
    case Movk(_, rd, imm, hw) => rd <= 31 && imm < 0x10000 && hw <= 3
    case Adr(rd, _) => rd <= 31
    case Adrp(rd, _) => rd <= 31
    case AddImm(_, rd, rn, imm) => rd <= 31 && rn <= 31 && imm < 0x1000
    case Br(_, rn) => rn <= 31
    case Bcond(cond, offset) => cond < 16 && offset % 4 == 0
    case B(_, offset) => offset % 4 == 0
    case Cbz(_, _, rt, offset) => rt <= 31 && offset % 4 == 0
    case Tbz(bit, _, rt, offset) => bit < 64 && rt <= 31 && offset % 4 == 0
    case LdrLit(size, _, rt, offset) => size < 4 && rt <= 31 && offset % 4 == 0
    case LdrVector(size, rt, rn) => size < 4 && rt <= 31 && rn <= 31
    case Other(_) => true
  }

  /** The instructions that do not depend on their address. */
  function DecodeOthers(top: nat, low: nat, w: Word): Instr {
    var rd := low % 0x20;
    if top == 0xd6 && low / 0x400 == 0x7c0 && rd == 0 then Br(false, low / 0x20 % 0x20)
    else if top == 0xd6 && low / 0x400 == 0xfc0 && rd == 0 then Br(true, low / 0x20 % 0x20)
    else if top % 0x20 == 0x12 && low / 0x800000 == 1 && (top / 0x80 == 1 || low / 0x200000 % 4 < 2)
            && top / 0x20 % 4 != 1 then
      var wide, imm, hw := top / 0x80 == 1, low / 0x20 % 0x10000, low / 0x200000 % 4;
      if top / 0x20 % 4 == 0 then Movn(wide, rd, imm, hw)
      else if top / 0x20 % 4 == 2 then Movz(wide, rd, imm, hw)
      else Movk(wide, rd, imm, hw)
    else if top % 0x80 == 0x11 && low / 0x400000 == 0 then
      AddImm(top / 0x80 == 1, rd, low / 0x20 % 0x20, low / 0x400 % 0x1000)
    else if top % 0x40 == 0x3d && low / 0x400 == (if top / 0x80 == 1 then 0x1000 else 0x3000) then
      LdrVector((top / 0x40 + 2) % 4, rd, low / 0x20 % 0x20)
    else Other(w)
  }

  /** The branches that test a register. */
  function DecodeTests(top: nat, low: nat, w: Word): Instr {
    var rd := low % 0x20;
    if top / 2 % 0x40 == 0x1a then
      Cbz(top / 0x80 == 1, top % 2 == 1, rd, 4 * SignExtend(low / 0x20 % 0x80000, 0x80000))
    else if top / 2 % 0x40 == 0x1b then
      Tbz(top / 0x80 * 32 + low / 0x80000 % 0x20, top % 2 == 1, rd, 4 * SignExtend(low / 0x20 % 0x4000, 0x4000))
    else DecodeOthers(top, low, w)
  }

  function DecodeBranches(top: nat, low: nat, w: Word): Instr {
    if top == 0x54 && low / 0x10 % 2 == 0 then
      Bcond(low % 0x10, 4 * SignExtend(low / 0x20 % 0x80000, 0x80000))
    else if top / 4 % 0x20 == 5 then
      B(top / 0x80 == 1, 4 * SignExtend(top % 4 * 0x1000000 + low, 0x4000000))
    else DecodeTests(top, low, w)
  }

  /** `top` is bits 31 to 24 of the word, and `low` bits 23 to 0. */
  function DecodeParts(top: nat, low: nat, w: Word): Instr {
    var rd := low % 0x20;
    var imm19 := low / 0x20 % 0x80000;
    if top % 0x20 == 0x10 then
      var imm := SignExtend(imm19 * 4 + top / 0x20 % 4, 0x200000);
      if top / 0x80 == 0 then Adr(rd, imm) else Adrp(rd, imm)
    else if top / 8 % 8 == 3 && top % 4 == 0 then
      LdrLit(top / 0x40, top / 4 % 2 == 1, rd, 4 * SignExtend(imm19, 0x80000))
    else DecodeBranches(top, low, w)
  }

  lemma OthersAreWellFormed(top: nat, low: nat, w: Word)
    requires top < 0x100 && low < 0x1000000
    ensures WellFormed(DecodeOthers(top, low, w))
  {
  }

  lemma TestsAreWellFormed(top: nat, low: nat, w: Word)
    requires top < 0x100 && low < 0x1000000
    ensures WellFormed(DecodeTests(top, low, w))
  {
    hide DecodeOthers, SignExtend;
    OthersAreWellFormed(top, low, w);
    assert top / 0x80 <= 1;
  }

  lemma BranchesAreWellFormed(top: nat, low: nat, w: Word)
    requires top < 0x100 && low < 0x1000000
    ensures WellFormed(DecodeBranches(top, low, w))
  {
    hide DecodeTests, SignExtend;
    TestsAreWellFormed(top, low, w);
  }

  lemma PartsAreWellFormed(top: nat, low: nat, w: Word)
    requires top < 0x100 && low < 0x1000000
    ensures WellFormed(DecodeParts(top, low, w))
  {
    hide DecodeBranches, SignExtend;
    BranchesAreWellFormed(top, low, w);
    assert top / 0x40 < 4;
  }

  function Decode(w: Word): (i: Instr)
    ensures WellFormed(i)
  {
    PartsAreWellFormed(w / 0x1000000, w % 0x1000000, w);
    DecodeParts(w / 0x1000000, w % 0x1000000, w)
  }

  // -------- Wrapping

  lemma WrapTurn(n: int)
    ensures Wrap(n + TWO64) == Wrap(n)
  {
  }

  lemma {:induction false} WrapPlus(a: int, b: int)
    ensures Wrap(Wrap(a) + b) == Wrap(a + b)
    decreases a < 0, if a < 0 then -a else a
  {
    if a < 0 {
      WrapPlus(a + TWO64, b);
      WrapTurn(a + b);
    } else if a >= TWO64 {
      WrapPlus(a - TWO64, b);
      WrapTurn(a - TWO64 + b);
    }
  }

  lemma WrapOnce(n: int)
    requires -TWO64 <= n < 2 * TWO64
    ensures Wrap(n) == if n < 0 then n + TWO64 else if n < TWO64 then n else n - TWO64
  {
    assert n >= TWO64 ==> Wrap(n - TWO64) == n - TWO64;
    assert n < 0 ==> Wrap(n + TWO64) == n + TWO64;
  }

  lemma EndPlus(pc: X, m: nat, n: nat)
    ensures End(End(pc, m), n) == End(pc, m + n)
  {
    WrapPlus(pc + 4 * m, 4 * n);
    assert pc + 4 * m + 4 * n == pc + 4 * (m + n);
  }

  lemma {:induction false} WrapAligned(n: int)
    requires n % 4 == 0
    ensures Wrap(n) % 4 == 0
    decreases n < 0, if n < 0 then -n else n
  {
    if n < 0 {
      WrapAligned(n + TWO64);
    } else if n >= TWO64 {
      WrapAligned(n - TWO64);
    }
  }

  // -------- Execution

  /** ConditionHolds, with the condition number split into the tested base and its inversion. */
  predicate Holds(cond: nat, f: Flags) {
    var base :=
      if cond / 2 == 0 then f.z
      else if cond / 2 == 1 then f.c
      else if cond / 2 == 2 then f.n
      else if cond / 2 == 3 then f.v
      else if cond / 2 == 4 then f.c && !f.z
      else if cond / 2 == 5 then f.n == f.v
      else if cond / 2 == 6 then f.n == f.v && !f.z
      else true;
    if cond % 2 == 1 && cond != 15 then !base else base
  }

  /** `imm` shifted left by `k` pieces. */
  function ShiftPiece(imm: nat, k: nat): nat {
    if k == 0 then imm else 0x10000 * ShiftPiece(imm, k - 1)
  }

  /** A register with piece `k` replaced. */
  function InsertPiece(x: nat, k: nat, imm: nat): nat {
    if k == 0 then x / 0x10000 * 0x10000 + imm else x % 0x10000 + 0x10000 * InsertPiece(x / 0x10000, k - 1, imm)
  }

  predicate CbzTaken(c: Cpu, wide: bool, nz: bool, rt: nat)
    requires c.Valid() && rt <= 31
  {
    (if wide then c.Reg(rt) == 0 else c.Reg(rt) % TWO32 == 0) != nz
  }

  predicate TbzTaken(c: Cpu, bit: nat, nz: bool, rt: nat)
    requires c.Valid() && rt <= 31
  {
    Bits.Bit(c.Reg(rt), bit) == nz
  }

  /** The state after one instruction, and whether it branched.  An instruction of no interest here is taken to do
      nothing. */
  function Execute(i: Instr, c: Cpu): (r: (Cpu, bool))
    requires c.Valid() && WellFormed(i)
    ensures r.0.Valid()
  {
    match i
    case Movn(wide, rd, imm, hw) =>
      var ones := if wide then TWO64 - 1 else TWO32 - 1;
      (c.Set(rd, Wrap(ones - ShiftPiece(imm, hw))).Next(), false)
    case Movz(wide, rd, imm, hw) => (c.Set(rd, Wrap(ShiftPiece(imm, hw))).Next(), false)
    case Movk(wide, rd, imm, hw) =>
      var x := if wide then c.Reg(rd) else c.Reg(rd) % TWO32;
      (c.Set(rd, Wrap(InsertPiece(x, hw, imm))).Next(), false)
    case Adr(rd, offset) => (c.Set(rd, Wrap(c.pc + offset)).Next(), false)
    case Adrp(rd, pages) => (c.Set(rd, Wrap((c.pc / 0x1000 + pages) * 0x1000)).Next(), false)
    case AddImm(wide, rd, rn, imm) =>
      var sum := c.Base(rn) + imm;
      (c.SetBase(rd, if wide then Wrap(sum) else sum % TWO32).Next(), false)
    case Bcond(cond, offset) =>
      if Holds(cond, c.flags) then (c.(pc := Wrap(c.pc + offset)), true) else (c.Next(), false)
    case B(link, offset) =>
      ((if link then c.Set(30, Wrap(c.pc + 4)) else c).(pc := Wrap(c.pc + offset)), true)
    case Br(link, rn) =>
      ((if link then c.Set(30, Wrap(c.pc + 4)) else c).(pc := c.Reg(rn)), true)
    case Cbz(wide, nz, rt, offset) =>
      if CbzTaken(c, wide, nz, rt) then (c.(pc := Wrap(c.pc + offset)), true) else (c.Next(), false)
    case Tbz(bit, nz, rt, offset) =>
      if TbzTaken(c, bit, nz, rt) then (c.(pc := Wrap(c.pc + offset)), true) else (c.Next(), false)
    case LdrLit(size, vector, rt, offset) =>
      (c.LoadFrom(Wrap(c.pc + offset), size, vector, rt).Next(), false)
    case LdrVector(size, rt, rn) => (c.LoadFrom(c.Base(rn), size, true, rt).Next(), false)
    case Other(_) => (c.Next(), false)
  }

  predicate AllWellFormed(code: seq<Instr>) {
    forall k :: 0 <= k < |code| ==> WellFormed(code[k])
  }

  /** Execution of a block of instructions at the program counter, until one branches or the end is reached. */
  function Run(code: seq<Instr>, c: Cpu): (r: (Cpu, bool))
    requires c.Valid() && AllWellFormed(code)
    ensures r.0.Valid()
  {
    if code == [] then (c, false)
    else
      var s := Execute(code[0], c);
      if s.1 then s else Run(code[1..], s.0)
  }

  lemma {:induction false} RunAppend(a: seq<Instr>, b: seq<Instr>, c: Cpu)
    requires c.Valid() && AllWellFormed(a) && AllWellFormed(b)
    ensures Run(a + b, c) == if Run(a, c).1 then Run(a, c) else Run(b, Run(a, c).0)
  {
    if a == [] {
      assert a + b == b;
    } else {
      assert (a + b)[1..] == a[1..] + b;
      RunAppend(a[1..], b, Execute(a[0], c).0);
    }
  }

  lemma RunOne(v: Instr, c: Cpu)
    requires c.Valid() && WellFormed(v)
    ensures Run([v], c) == Execute(v, c)
  {
    assert [v][1..] == [];
    assert Run([v][1..], Execute(v, c).0) == (Execute(v, c).0, false);
  }

  lemma RunTwo(v: Instr, w: Instr, c: Cpu)
    requires c.Valid() && WellFormed(v) && WellFormed(w)
    ensures Run([v, w], c) == var s := Execute(v, c); if s.1 then s else Execute(w, s.0)
  {
    assert [v, w][1..] == [w];
    RunOne(w, Execute(v, c).0);
  }

  lemma RunTwoStraight(v: Instr, w: Instr, c: Cpu, c1: Cpu, c2: Cpu)
    requires c.Valid() && c1.Valid() && WellFormed(v) && WellFormed(w)
    requires Execute(v, c) == (c1, false) && Execute(w, c1) == (c2, false)
    ensures Run([v, w], c) == (c2, false)
  {
    RunTwo(v, w, c);
  }

  /** Execution of a block of instruction words. */
  function RunWords(code: seq<Word>, c: Cpu): (r: (Cpu, bool))
    requires c.Valid()
    ensures r.0.Valid()
  {
    if code == [] then (c, false)
    else
      var s := Execute(Decode(code[0]), c);
      if s.1 then s else RunWords(code[1..], s.0)
  }
}
