/** The encoding unions of disasm.cpp, and their agreement with the decoder.  A bit field that is assigned a wider value
    keeps its low bits. */
module Arm64Encode {
  import Bits
  import opened Arm64Isa

  /** A signed delta in units of instructions, truncated to a field: (delta >> 2) in so many bits. */
  function ImmField(delta: int, span: int): (f: nat)
    requires span > 0
    ensures f < span
  {
    delta / 4 % span
  }

  function AssembleBcc(condition: nat, delta: int): Word
    requires condition < 16
  {
    condition + 0x20 * ImmField(delta, 0x80000) + 0x54 * 0x1000000
  }

  function AssembleBranch(link: bool, delta: int): Word {
    ImmField(delta, 0x4000000) + 5 * 0x4000000 + (if link then 0x80000000 else 0)
  }

  function AssembleBr(rn: nat, link: bool): Word
    requires rn <= 31
  {
    0x20 * rn + 0x3587c0 * 0x400 + (if link then 0x200000 else 0)
  }

  function AssembleCbz(size: nat, nz: nat, rt: nat, delta: int): Word
    requires size < 2 && nz < 2 && rt <= 31
  {
    rt + 0x20 * ImmField(delta, 0x80000) + 0x1000000 * nz + 0x1a * 0x2000000 + 0x80000000 * size
  }

  function AssembleTbz(size: nat, nz: nat, rt: nat, bit: nat, delta: int): Word
    requires size < 2 && nz < 2 && rt <= 31 && bit < 32
  {
    rt + 0x20 * ImmField(delta, 0x4000) + 0x80000 * bit + 0x1000000 * nz + 0x1b * 0x2000000 + 0x80000000 * size
  }

  /** type is 0 for MOVN, 2 for MOVZ and 3 for MOVK. */
  function AssembleMov(size: nat, kind: nat, rd: nat, imm: nat, shift: nat): Word
    requires size < 2 && kind < 4 && rd <= 31 && imm < 0x10000 && shift < 4
  {
    rd + 0x20 * imm + 0x200000 * shift + 0x25 * 0x800000 + 0x20000000 * kind + 0x80000000 * size
  }

  /** kind is 0 for ADR and 1 for ADRP; the two low bits of delta are kept apart from the others. */
  function AssembleAdr(kind: nat, rd: nat, delta: int): Word
    requires kind < 2 && rd <= 31
  {
    rd + 0x20 * ImmField(delta, 0x80000) + 0x10 * 0x1000000 + 0x20000000 * (delta % 4) + 0x80000000 * kind
  }

  function AssembleAdd32(rd: nat, rn: nat, imm: nat): Word
    requires rd <= 31 && rn <= 31 && imm < 0x1000
  {
    rd + 0x20 * rn + 0x400 * imm + 0x11 * 0x1000000
  }

  function AssembleLdrLit(size: nat, vector: nat, rt: nat, delta: int): Word
    requires size < 4 && vector < 2 && rt <= 31
  {
    rt + 0x20 * ImmField(delta, 0x80000) + 0x4000000 * vector + 3 * 0x8000000 + 0x40000000 * size
  }

  /** kind is 2 for St, 3 for Dt and 4 for Qt. */
  function AssembleLdrVector(kind: nat, rt: nat, rn: nat, imm: nat): Word
    requires 2 <= kind <= 5 && rt <= 31 && rn <= 31 && imm < 0x1000
  {
    rt + 0x20 * rn + 0x400 * imm + 0x400000 + 0x800000 * (kind / 4) + 0x3d * 0x1000000 + 0x40000000 * (kind % 4)
  }

  // -------- Decoding what was assembled

  /** The lowest digit of a number, and the others. */
  lemma Digit(a: int, u: int, r: int)
    requires 0 <= a < u
    ensures (a + u * r) / u == r && (a + u * r) % u == a
  {
    var n := a + u * r;
    var q := n / u;
    assert u * (r - q) == n % u - a;
    Bits.ProductGap(u, r - q);
  }

  lemma Parts(top: nat, low: nat, w: Word)
    requires low < 0x1000000 && w == low + 0x1000000 * top
    ensures Decode(w) == DecodeParts(top, low, w)
  {
    Digit(low, 0x1000000, top);
  }

  lemma SignExtendField(delta: int, span: int)
    requires span == 0x80000 || span == 0x4000000 || span == 0x4000
    requires delta % 4 == 0 && -2 * span <= delta < 2 * span
    ensures 4 * SignExtend(ImmField(delta, span), span) == delta
  {
  }

  /** Top bytes, by the flags in them. */
  function TopOf(base: nat, lowBit: nat, highBit: nat): nat {
    base + lowBit + 0x80 * highBit
  }

  lemma BccParts(condition: nat, imm: nat, low: nat, w: Word)
    requires condition < 16 && low % 0x10 == condition && low / 0x10 == 2 * imm && low / 0x20 == imm < 0x80000
    ensures DecodeParts(0x54, low, w) == Bcond(condition, 4 * SignExtend(imm, 0x80000))
  {
  }

  lemma DecodeBcc(condition: nat, delta: int)
    requires condition < 16 && delta % 4 == 0 && -0x100000 <= delta < 0x100000
    ensures Decode(AssembleBcc(condition, delta)) == Bcond(condition, delta)
  {
    hide DecodeParts;
    var imm := ImmField(delta, 0x80000);
    var low := condition + 0x20 * imm;
    Parts(0x54, low, AssembleBcc(condition, delta));
    Digit(condition, 0x20, imm);
    Digit(condition, 0x10, 2 * imm);
    BccParts(condition, imm, low, AssembleBcc(condition, delta));
    SignExtendField(delta, 0x80000);
  }

  lemma BranchParts(top: nat, low: nat, w: Word, link: bool)
    requires low < 0x1000000 && (if link then 0x94 <= top < 0x98 else 0x14 <= top < 0x18)
    ensures DecodeParts(top, low, w) ==
            B(link, 4 * SignExtend((top - (if link then 0x94 else 0x14)) * 0x1000000 + low, 0x4000000))
  {
    hide DecodeTests, SignExtend;
    var base := if link then 0x94 else 0x14;
    assert top % 4 == top - base && top / 4 % 0x20 == 5;
    assert top % 0x20 == 0x14 + (top - base) && top / 8 % 8 == 2;
  }

  lemma DecodeBranch(link: bool, delta: int)
    requires delta % 4 == 0 && -0x8000000 <= delta < 0x8000000
    ensures Decode(AssembleBranch(link, delta)) == B(link, delta)
  {
    hide DecodeParts, DecodeOthers;
    var imm := ImmField(delta, 0x4000000);
    var high, low := imm / 0x1000000, imm % 0x1000000;
    var top := high + (if link then 0x94 else 0x14);
    assert imm == low + 0x1000000 * high && high < 4;
    Parts(top, low, AssembleBranch(link, delta));
    BranchParts(top, low, AssembleBranch(link, delta), link);
    SignExtendField(delta, 0x4000000);
  }

  lemma DecodeBr(rn: nat, link: bool)
    requires rn <= 31
    ensures Decode(AssembleBr(rn, link)) == Br(link, rn)
  {
    var low := 0x20 * rn + 0x400 * (if link then 0xfc0 else 0x7c0);
    Parts(0xd6, low, AssembleBr(rn, link));
    Digit(0, 0x20, rn + 0x20 * (if link then 0xfc0 else 0x7c0));
    Digit(rn, 0x20, if link then 0xfc0 else 0x7c0);
    Digit(0x20 * rn, 0x400, if link then 0xfc0 else 0x7c0);
  }

  lemma CbzParts(size: nat, nz: nat, rt: nat, imm: nat, low: nat, w: Word)
    requires size < 2 && nz < 2 && rt <= 31 && imm < 0x80000 && low % 0x20 == rt && low / 0x20 == imm
    ensures DecodeParts(TopOf(0x34, nz, size), low, w) == Cbz(size == 1, nz == 1, rt, 4 * SignExtend(imm, 0x80000))
  {
    if nz == 0 {
      if size == 0 { assert TopOf(0x34, nz, size) == 0x34; } else { assert TopOf(0x34, nz, size) == 0xb4; }
    } else {
      if size == 0 { assert TopOf(0x34, nz, size) == 0x35; } else { assert TopOf(0x34, nz, size) == 0xb5; }
    }
  }

  lemma DecodeCbz(size: nat, nz: nat, rt: nat, delta: int)
    requires size < 2 && nz < 2 && rt <= 31 && delta % 4 == 0 && -0x100000 <= delta < 0x100000
    ensures Decode(AssembleCbz(size, nz, rt, delta)) == Cbz(size == 1, nz == 1, rt, delta)
  {
    hide DecodeParts, DecodeOthers;
    var imm := ImmField(delta, 0x80000);
    var low, w := rt + 0x20 * imm, AssembleCbz(size, nz, rt, delta);
    Parts(TopOf(0x34, nz, size), low, w);
    Digit(rt, 0x20, imm);
    CbzParts(size, nz, rt, imm, low, w);
    SignExtendField(delta, 0x80000);
  }

  lemma TbzParts(size: nat, nz: nat, rt: nat, bit: nat, imm: nat, low: nat, w: Word)
    requires size < 2 && nz < 2 && rt <= 31 && low % 0x20 == rt
    requires low / 0x20 % 0x4000 == imm && low / 0x80000 == bit < 32
    ensures DecodeParts(TopOf(0x36, nz, size), low, w) ==
            Tbz(32 * size + bit, nz == 1, rt, 4 * SignExtend(imm, 0x4000))
  {
    if nz == 0 {
      if size == 0 { assert TopOf(0x36, nz, size) == 0x36; } else { assert TopOf(0x36, nz, size) == 0xb6; }
    } else {
      if size == 0 { assert TopOf(0x36, nz, size) == 0x37; } else { assert TopOf(0x36, nz, size) == 0xb7; }
    }
  }

  lemma DecodeTbz(size: nat, nz: nat, rt: nat, bit: nat, delta: int)
    requires size < 2 && nz < 2 && rt <= 31 && bit < 32 && delta % 4 == 0 && -0x8000 <= delta < 0x8000
    ensures Decode(AssembleTbz(size, nz, rt, bit, delta)) == Tbz(32 * size + bit, nz == 1, rt, delta)
  {
    hide DecodeParts, DecodeOthers;
    var imm := ImmField(delta, 0x4000);
    var low, w := rt + 0x20 * imm + 0x80000 * bit, AssembleTbz(size, nz, rt, bit, delta);
    Parts(TopOf(0x36, nz, size), low, w);
    Digit(rt, 0x20, imm + 0x4000 * bit);
    Digit(imm, 0x4000, bit);
    Digit(rt + 0x20 * imm, 0x80000, bit);
    TbzParts(size, nz, rt, bit, imm, low, w);
    SignExtendField(delta, 0x4000);
  }

  /** The move-wide instructions with a 64-bit destination, and MOVN with a 32-bit destination and no shift. */
  lemma MovParts(kind: nat, rd: nat, imm: nat, shift: nat, low: nat, w: Word)
    requires rd <= 31 && imm < 0x10000 && shift < 4 && low % 0x20 == rd && low / 0x800000 == 1
    requires low / 0x20 % 0x10000 == imm && low / 0x200000 % 4 == shift
    ensures DecodeParts(0x92, low, w) == Movn(true, rd, imm, shift)
    ensures DecodeParts(0xd2, low, w) == Movz(true, rd, imm, shift)
    ensures DecodeParts(0xf2, low, w) == Movk(true, rd, imm, shift)
    ensures shift == 0 ==> DecodeParts(0x12, low, w) == Movn(false, rd, imm, 0)
  {
  }

  lemma MovLow(rd: nat, imm: nat, shift: nat)
    requires rd <= 31 && imm < 0x10000 && shift < 4
    ensures var low := rd + 0x20 * imm + 0x200000 * shift + 0x800000;
            && low < 0x1000000 && low % 0x20 == rd && low / 0x20 % 0x10000 == imm
            && low / 0x200000 % 4 == shift && low / 0x800000 == 1
  {
    Digit(rd, 0x20, imm + 0x10000 * shift + 0x40000);
    Digit(imm, 0x10000, shift + 4);
    Digit(rd + 0x20 * imm, 0x200000, shift + 4);
    Digit(rd + 0x20 * imm + 0x200000 * shift, 0x800000, 1);
  }

  lemma DecodeMov(size: nat, kind: nat, rd: nat, imm: nat, shift: nat)
    requires rd <= 31 && imm < 0x10000 && shift < 4
    requires (size == 1 && (kind == 0 || kind == 2 || kind == 3)) || (size == 0 && kind == 0 && shift == 0)
    ensures Decode(AssembleMov(size, kind, rd, imm, shift)) ==
            if kind == 0 then Movn(size == 1, rd, imm, shift)
            else if kind == 2 then Movz(true, rd, imm, shift)
            else Movk(true, rd, imm, shift)
  {
    hide DecodeParts, DecodeOthers;
    var low, w := rd + 0x20 * imm + 0x200000 * shift + 0x800000, AssembleMov(size, kind, rd, imm, shift);
    var top := if size == 0 then 0x12 else if kind == 0 then 0x92 else if kind == 2 then 0xd2 else 0xf2;
    Parts(top, low, w);
    MovLow(rd, imm, shift);
    MovParts(kind, rd, imm, shift, low, w);
  }

  lemma AdrParts(kind: nat, rd: nat, imm: nat, lo2: nat, low: nat, w: Word)
    requires kind < 2 && rd <= 31 && imm < 0x80000 && lo2 < 4 && low % 0x20 == rd && low / 0x20 == imm
    ensures var i := SignExtend(imm * 4 + lo2, 0x200000);
            DecodeParts(0x10 + 0x20 * lo2 + 0x80 * kind, low, w) == if kind == 0 then Adr(rd, i) else Adrp(rd, i)
  {
    if kind == 0 {
      if lo2 == 0 {} else if lo2 == 1 {} else if lo2 == 2 {} else {}
    } else {
      if lo2 == 0 {} else if lo2 == 1 {} else if lo2 == 2 {} else {}
    }
  }

  lemma AdrImmediate(delta: int)
    requires -0x100000 <= delta < 0x100000
    ensures SignExtend(ImmField(delta, 0x80000) * 4 + delta % 4, 0x200000) == delta
  {
  }

  lemma DecodeAdr(kind: nat, rd: nat, delta: int)
    requires kind < 2 && rd <= 31 && -0x100000 <= delta < 0x100000
    ensures Decode(AssembleAdr(kind, rd, delta)) == if kind == 0 then Adr(rd, delta) else Adrp(rd, delta)
  {
    hide DecodeParts, DecodeOthers;
    var imm := ImmField(delta, 0x80000);
    var low, w := rd + 0x20 * imm, AssembleAdr(kind, rd, delta);
    Parts(0x10 + 0x20 * (delta % 4) + 0x80 * kind, low, w);
    Digit(rd, 0x20, imm);
    AdrParts(kind, rd, imm, delta % 4, low, w);
    AdrImmediate(delta);
  }

  lemma Add32Parts(rd: nat, rn: nat, imm: nat, low: nat, w: Word)
    requires low % 0x20 == rd && low / 0x20 % 0x20 == rn && low / 0x400 == imm < 0x1000 && low < 0x400000
    ensures DecodeParts(0x11, low, w) == AddImm(false, rd, rn, imm)
  {
  }

  lemma DecodeAdd32(rd: nat, rn: nat, imm: nat)
    requires rd <= 31 && rn <= 31 && imm < 0x1000
    ensures Decode(AssembleAdd32(rd, rn, imm)) == AddImm(false, rd, rn, imm)
  {
    hide DecodeParts, DecodeOthers;
    var low := rd + 0x20 * rn + 0x400 * imm;
    Parts(0x11, low, AssembleAdd32(rd, rn, imm));
    Digit(rd, 0x20, rn + 0x20 * imm);
    Digit(rn, 0x20, imm);
    Digit(rd + 0x20 * rn, 0x400, imm);
    Add32Parts(rd, rn, imm, low, AssembleAdd32(rd, rn, imm));
  }

  lemma LdrLitTop(top: nat, vector: nat)
    requires vector < 2 && top < 0x100 && top % 0x40 == 0x18 + 4 * vector
    ensures top % 0x20 != 0x10 && top != 0x54 && top / 4 % 0x20 != 5
    ensures top / 2 % 0x40 != 0x1a && top / 2 % 0x40 != 0x1b
    ensures top / 8 % 8 == 3 && top % 4 == 0 && top / 4 % 2 == vector
  {
    assert top == 0x18 + 4 * vector + 0x40 * (top / 0x40);
  }

  lemma LdrLitParts(size: nat, vector: nat, rt: nat, imm: nat, low: nat, w: Word)
    requires size < 4 && vector < 2 && low < 0x1000000 && low % 0x20 == rt && low / 0x20 == imm < 0x80000
    ensures DecodeParts(0x18 + 4 * vector + 0x40 * size, low, w)
         == LdrLit(size, vector == 1, rt, 4 * SignExtend(imm, 0x80000))
  {
    hide SignExtend, DecodeOthers;
    var top := 0x18 + 4 * vector + 0x40 * size;
    assert top / 0x40 == size && top % 0x40 == 0x18 + 4 * vector;
    LdrLitTop(top, vector);
    assert imm % 0x80000 == imm;
  }

  lemma DecodeLdrLit(size: nat, vector: nat, rt: nat, delta: int)
    requires size < 4 && vector < 2 && rt <= 31 && delta % 4 == 0 && -0x100000 <= delta < 0x100000
    ensures Decode(AssembleLdrLit(size, vector, rt, delta)) == LdrLit(size, vector == 1, rt, delta)
  {
    hide DecodeParts, DecodeOthers;
    var imm := ImmField(delta, 0x80000);
    var low, w := rt + 0x20 * imm, AssembleLdrLit(size, vector, rt, delta);
    Parts(0x18 + 4 * vector + 0x40 * size, low, w);
    Digit(rt, 0x20, imm);
    LdrLitParts(size, vector, rt, imm, low, w);
    SignExtendField(delta, 0x80000);
  }

  lemma LdrVectorParts(size: nat, rt: nat, rn: nat, low: nat, w: Word)
    requires size < 4 && low < 0x1000000 && low % 0x20 == rt && low / 0x20 % 0x20 == rn
    requires low / 0x400 == if size < 2 then 0x1000 else 0x3000
    ensures DecodeParts(0x3d + 0x40 * ((size + 2) % 4), low, w) == LdrVector(size, rt, rn)
  {
  }

  lemma DecodeLdrVector(size: nat, rt: nat, rn: nat)
    requires size < 4 && rt <= 31 && rn <= 31
    ensures Decode(AssembleLdrVector(2 + size, rt, rn, 0)) == LdrVector(size, rt, rn)
  {
    hide DecodeParts, DecodeOthers;
    var high := if size < 2 then 0x1000 else 0x3000;
    var low, w := rt + 0x20 * rn + 0x400 * high, AssembleLdrVector(2 + size, rt, rn, 0);
    Parts(0x3d + 0x40 * ((size + 2) % 4), low, w);
    Digit(rt, 0x20, rn + 0x20 * high);
    Digit(rn, 0x20, high);
    Digit(rt + 0x20 * rn, 0x400, high);
    LdrVectorParts(size, rt, rn, low, w);
  }

  // -------- Encoding instructions

  predicate Fits(delta: int, limit: int) {
    -limit <= delta < limit
  }

  /** The instructions and operands that the relocation code emits. */
  predicate Encodable(i: Instr) {
    match i
    case Movn(wide, rd, imm, hw) => rd <= 31 && imm < 0x10000 && hw <= 3 && (!wide ==> hw == 0)
    case Movz(wide, rd, imm, hw) => wide && rd <= 31 && imm < 0x10000 && hw <= 3
    case Movk(wide, rd, imm, hw) => wide && rd <= 31 && imm < 0x10000 && hw <= 3
    case Adr(rd, offset) => rd <= 31 && Fits(offset, 0x100000)
    case Adrp(rd, pages) => rd <= 31 && Fits(pages, 0x100000)
    case AddImm(wide, rd, rn, imm) => !wide && rd <= 31 && rn <= 31 && imm < 0x1000
    case Bcond(cond, offset) => cond < 16 && offset % 4 == 0 && Fits(offset, 0x100000)
    case B(_, offset) => offset % 4 == 0 && Fits(offset, 0x8000000)
    case Br(_, rn) => rn <= 31
    case Cbz(_, _, rt, offset) => rt <= 31 && offset % 4 == 0 && Fits(offset, 0x100000)
    case Tbz(bit, _, rt, offset) => bit < 64 && rt <= 31 && offset % 4 == 0 && Fits(offset, 0x8000)
    case LdrLit(size, _, rt, offset) => size < 4 && rt <= 31 && offset % 4 == 0 && Fits(offset, 0x100000)
    case LdrVector(size, rt, rn) => size < 4 && rt <= 31 && rn <= 31
    case Other(_) => false
  }

  function Num(b: bool): (n: nat)
    ensures n < 2
  {
    if b then 1 else 0
  }

  function Encode(i: Instr): Word
    requires Encodable(i)
  {
    match i
    case Movn(wide, rd, imm, hw) => AssembleMov(Num(wide), 0, rd, imm, hw)
    case Movz(wide, rd, imm, hw) => AssembleMov(Num(wide), 2, rd, imm, hw)
    case Movk(wide, rd, imm, hw) => AssembleMov(Num(wide), 3, rd, imm, hw)
    case Adr(rd, offset) => AssembleAdr(0, rd, offset)
    case Adrp(rd, pages) => AssembleAdr(1, rd, pages)
    case AddImm(_, rd, rn, imm) => AssembleAdd32(rd, rn, imm)
    case Bcond(cond, offset) => AssembleBcc(cond, offset)
    case B(link, offset) => AssembleBranch(link, offset)
    case Br(link, rn) => AssembleBr(rn, link)
    case Cbz(wide, nz, rt, offset) => AssembleCbz(Num(wide), Num(nz), rt, offset)
    case Tbz(bit, nz, rt, offset) => AssembleTbz(bit / 32, Num(nz), rt, bit % 32, offset)
    case LdrLit(size, vector, rt, offset) => AssembleLdrLit(size, Num(vector), rt, offset)
    case LdrVector(size, rt, rn) => AssembleLdrVector(2 + size, rt, rn, 0)
  }

  /** The decoder of the architecture inverts the encoding unions. */
  lemma DecodeEncode(i: Instr)
    requires Encodable(i)
    ensures Decode(Encode(i)) == i
  {
    match i
    case Movn(wide, rd, imm, hw) => DecodeMov(Num(wide), 0, rd, imm, hw);
    case Movz(wide, rd, imm, hw) => DecodeMov(Num(wide), 2, rd, imm, hw);
    case Movk(wide, rd, imm, hw) => DecodeMov(Num(wide), 3, rd, imm, hw);
    case Adr(rd, offset) => DecodeAdr(0, rd, offset);
    case Adrp(rd, pages) => DecodeAdr(1, rd, pages);
    case AddImm(_, rd, rn, imm) => DecodeAdd32(rd, rn, imm);
    case Bcond(cond, offset) => DecodeBcc(cond, offset);
    case B(link, offset) => DecodeBranch(link, offset);
    case Br(link, rn) => DecodeBr(rn, link);
    case Cbz(wide, nz, rt, offset) => DecodeCbz(Num(wide), Num(nz), rt, offset);
    case Tbz(bit, nz, rt, offset) => DecodeTbz(bit / 32, Num(nz), rt, bit % 32, offset);
    case LdrLit(size, vector, rt, offset) => DecodeLdrLit(size, Num(vector), rt, offset);
    case LdrVector(size, rt, rn) => DecodeLdrVector(size, rt, rn);
  }

  predicate AllEncodable(code: seq<Instr>) {
    forall k :: 0 <= k < |code| ==> Encodable(code[k])
  }

  function EncodeAll(code: seq<Instr>): (words: seq<Word>)
    requires AllEncodable(code)
    ensures |words| == |code|
    ensures forall k :: 0 <= k < |code| ==> words[k] == Encode(code[k])
  {
    seq(|code|, k requires 0 <= k < |code| => Encode(code[k]))
  }

  /** Running the emitted words is running the instructions. */
  lemma {:induction false} RunEncoded(code: seq<Instr>, c: Cpu)
    requires c.Valid() && AllEncodable(code) && AllWellFormed(code)
    ensures RunWords(EncodeAll(code), c) == Run(code, c)
  {
    if code != [] {
      DecodeEncode(code[0]);
      assert EncodeAll(code)[1..] == EncodeAll(code[1..]);
      RunEncoded(code[1..], Execute(code[0], c).0);
    }
  }
}
