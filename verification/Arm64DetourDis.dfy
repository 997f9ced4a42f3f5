/** CDetourDis of disasm.cpp for ARM64: the methods that write the copied instructions. */
module Arm64DetourDis {
  import Bits

  import opened Arm64Copy
  import opened Arm64Encode
  import opened Arm64Isa
  import opened Arm64Move
  import opened Arm64Relocate

  datatype Target = NoTarget | Target(address: X)

  /** `next` is `before` with `words` written from position `at` on. */
  ghost predicate Written(before: seq<Word>, next: seq<Word>, at: nat, words: seq<Word>) {
    && |next| == |before| && at + |words| <= |before|
    && (forall k :: 0 <= k < |words| ==> next[at + k] == words[k])
    && (forall k :: 0 <= k < |before| && !(at <= k < at + |words|) ==> next[k] == before[k])
  }

  lemma WrittenCompose(a: seq<Word>, b: seq<Word>, c: seq<Word>, at: nat, u: seq<Word>, v: seq<Word>)
    requires Written(a, b, at, u) && Written(b, c, at + |u|, v)
    ensures Written(a, c, at, u + v)
  {
  }

  lemma EncodeAppend(a: seq<Instr>, b: seq<Instr>)
    requires AllEncodable(a) && AllEncodable(b)
    ensures AllEncodable(a + b) && EncodeAll(a + b) == EncodeAll(a) + EncodeAll(b)
  {
  }

  /** What a Copy function leaves for an instruction that depends on its address: the copy at the start of the memory,
      its length, and the target of a branch. */
  ghost predicate RelativeCopied(decoded: Instr, source: X, dest: X, mem: Memory, before: seq<Word>, after: seq<Word>,
                                 was: Target, target: Target, bytes: nat)
    requires IsRelative(decoded) && WellFormed(decoded) && Aligned(source) && Aligned(dest)
  {
    var code := CopyOf(decoded, source, dest, mem);
    && Written(before, after, 0, EncodeAll(code))
    && bytes == 4 * |code|
    && target == if IsTest(decoded) || decoded.B? then Target(TargetOf(decoded, source)) else was
  }

  /** The words of the three forms of a copied conditional branch. */
  lemma NearWords(t: Test, target: X, dest: X)
    requires t.Valid() && Aligned(target) && Aligned(dest) && ReachOf(t, target, dest) == Near
    ensures var i := t.Branch(Distance(target, dest));
            Encodable(i) && EncodeAll(CopyTest(t, target, dest)) == [Encode(i)]
  {
    DistanceReaches(target, dest);
    TestIsEncodable(t, Distance(target, dest));
  }

  lemma MiddleWords(t: Test, target: X, dest: X)
    requires t.Valid() && Aligned(target) && Aligned(dest) && ReachOf(t, target, dest) == Middle
    ensures var i, delta4 := t.Flipped().Branch(8), Distance(target, End(dest, 1));
            Encodable(i) && EncodeAll(CopyTest(t, target, dest)) == [Encode(i), AssembleBranch(false, delta4)]
  {
    TestIsEncodable(t.Flipped(), 8);
  }

  lemma EncodeFar(t: X, rest: seq<Instr>, v: Word, w: Word)
    requires AllEncodable(rest) && EncodeAll(rest) == [v, w]
    ensures AllEncodable(MoveImmediate(17, t) + rest)
    ensures EncodeAll(MoveImmediate(17, t) + rest) == EncodeAll(MoveImmediate(17, t)) + [v, w]
  {
    EncodeAppend(MoveImmediate(17, t), rest);
  }

  lemma FarWords(t: Test, target: X, dest: X)
    requires t.Valid() && Aligned(target) && Aligned(dest) && ReachOf(t, target, dest) == Far
    ensures var i := t.Flipped().Branch(8);
            && Encodable(i)
            && EncodeAll(CopyTest(t, target, dest)) ==
               EncodeAll(MoveImmediate(17, target)) + [Encode(i), AssembleBr(17, false)]
  {
    TestIsEncodable(t.Flipped(), 8);
    var rest := [t.Flipped().Branch(8), Br(false, 17)];
    EncodeFar(target, rest, Encode(rest[0]), Encode(rest[1]));
  }

  /** The three forms of a copied conditional branch: `one` is the branch itself, and `around` the one with its
      condition flipped that skips the next instruction. */
  ghost predicate Forms(words: seq<Word>, t: X, dest: X, near: int, one: Word, around: Word) {
    if Fits(Distance(t, dest), near) then words == [one]
    else
      var delta4 := Distance(t, End(dest, 1));
      if Fits(delta4, BRANCH_RANGE) then words == [around, AssembleBranch(false, delta4)]
      else words == EncodeAll(MoveImmediate(17, t)) + [around, AssembleBr(17, false)]
  }

  /** The word of a conditional branch, by its encoding union. */
  function TestWord(test: Test, delta: int): Word
    requires test.Valid()
  {
    match test
    case Flag(cond) => AssembleBcc(cond, delta)
    case Zero(size, nz, rt) => AssembleCbz(size, nz, rt, delta)
    case Bit(size, nz, rt, bit) => AssembleTbz(size, nz, rt, bit, delta)
  }

  lemma TestWordEncodes(test: Test, delta: int)
    requires test.Valid() && Encodable(test.Branch(delta))
    ensures Encode(test.Branch(delta)) == TestWord(test, delta)
  {
    if test.Bit? {
      assert (32 * test.size + test.bit) / 32 == test.size && (32 * test.size + test.bit) % 32 == test.bit;
    }
  }

  lemma CopyTestForms(test: Test, t: X, dest: X)
    requires test.Valid() && Aligned(t) && Aligned(dest)
    ensures Forms(EncodeAll(CopyTest(test, t, dest)), t, dest, test.NearRange(),
                  TestWord(test, Distance(t, dest)), TestWord(test.Flipped(), 8))
  {
    match ReachOf(test, t, dest)
    case Near =>
      NearWords(test, t, dest);
      TestWordEncodes(test, Distance(t, dest));
    case Middle =>
      MiddleWords(test, t, dest);
      TestWordEncodes(test.Flipped(), 8);
    case Far =>
      FarWords(test, t, dest);
      TestWordEncodes(test.Flipped(), 8);
  }

  lemma CopyBranchWords(link: bool, target: X, dest: X)
    requires Aligned(target) && Aligned(dest)
    ensures var words := EncodeAll(CopyBranch(link, target, dest));
            if Fits(Distance(target, dest), BRANCH_RANGE) then words == [AssembleBranch(link, Distance(target, dest))]
            else words == EncodeAll(MoveImmediate(17, target)) + [AssembleBr(17, link)]
  {
    if !Fits(Distance(target, dest), BRANCH_RANGE) {
      EncodeAppend(MoveImmediate(17, target), [Br(link, 17)]);
    }
  }

  lemma CopyAdrWords(rd: nat, target: X, dest: X)
    requires rd <= 31
    ensures var words := EncodeAll(CopyAdr(rd, target, dest));
            if Fits(Distance(target, dest), ADR_RANGE) then words == [AssembleAdr(0, rd, Distance(target, dest))]
            else if Fits(PageDistance(target, dest), ADR_RANGE) then
              words == [AssembleAdr(1, rd, PageDistance(target, dest)), AssembleAdd32(rd, rd, target % 0x1000)]
            else words == EncodeAll(MoveImmediate(rd, target))
    ensures var words := EncodeAll(CopyAdrp(rd, target, dest));
            if Fits(PageDistance(target, dest), ADR_RANGE) then
              words == [AssembleAdr(1, rd, PageDistance(target, dest))]
            else words == EncodeAll(MoveImmediate(rd, target))
  {
  }

  lemma CopyLiteralWords(size: nat, vector: bool, rt: nat, target: X, dest: X, mem: Memory)
    requires size < 4 && rt <= 31 && Aligned(target) && Aligned(dest)
    ensures var words, delta := EncodeAll(CopyLdrLiteral(size, vector, rt, target, dest, mem)), Distance(target, dest);
            if Fits(delta, LDR_TEST) then words == [AssembleLdrLit(size, Num(vector), rt, delta)]
            else if !vector then
              words == EncodeAll(MoveImmediate(rt, if size < 3 then Literal(mem, size, target) else 0))
            else words == EncodeAll(MoveImmediate(17, target)) + [AssembleLdrVector(2 + size, rt, 17, 0)]
  {
    var delta := Distance(target, dest);
    DistanceReaches(target, dest);
    if Fits(delta, LDR_TEST) {
      LiteralOffsetKept(delta);
    } else if vector {
      EncodeAppend(MoveImmediate(17, target), [LdrVector(size, rt, 17)]);
    }
  }

  /** The words still to come, after the instruction for piece `k`. */
  lemma PieceEmitted(rd: nat, piece: Pieces, d: nat, k: nat, first: bool, done: seq<Word>, all: seq<Word>)
    requires rd <= 31 && k <= 3 && (piece[k] != d || (k == 0 && first))
    requires done + EncodeAll(MoveTail(rd, piece, d, k + 1, first)) == all
    ensures done + [Encode(MovePiece(rd, piece, d, k, first))] + EncodeAll(MoveTail(rd, piece, d, k, false)) == all
  {
    var i, rest := MovePiece(rd, piece, d, k, first), MoveTail(rd, piece, d, k, false);
    EncodeAppend([i], rest);
    assert EncodeAll([i]) == [Encode(i)];
    assert done + ([Encode(i)] + EncodeAll(rest)) == done + [Encode(i)] + EncodeAll(rest);
  }

  class CDetourDis {
    /** m_pbTarget */
    var target: Target
    /** The memory at the destination, by instruction word. */
    const memory: array<Word>

    constructor (memory: array<Word>)
      ensures target == NoTarget && this.memory == memory
    {
      this.memory := memory;
      this.target := NoTarget;
    }

    method EmitInstruction(at: nat, instruction: Word) returns (next: nat)
      requires at < memory.Length
      modifies memory
      ensures next == at + 1 && Written(old(memory[..]), memory[..], at, [instruction])
    {
      memory[at] := instruction;
      next := at + 1;
    }

    /** The instruction for one piece. */
    method EmitPiece(at: nat, rd: nat, piece: Pieces, defaultPiece: nat, k: nat, first: bool) returns (next: nat)
      requires rd <= 31 && k <= 3 && at < memory.Length
      modifies memory
      ensures next == at + 1
      ensures Written(old(memory[..]), memory[..], at, [Encode(MovePiece(rd, piece, defaultPiece, k, first))])
    {
      var curPiece := piece[k];
      if first {
        if defaultPiece == 0xffff {
          next := EmitInstruction(at, AssembleMov(1, 0, rd, 0xffff - curPiece, k));
        } else {
          next := EmitInstruction(at, AssembleMov(1, 2, rd, curPiece, k));
        }
      } else {
        next := EmitInstruction(at, AssembleMov(1, 3, rd, curPiece, k));
      }
    }

    /** The loop of EmitMovImmediate over the pieces, from the highest down. */
    method EmitPieces(at: nat, rd: nat, piece: Pieces, defaultPiece: nat) returns (next: nat, count: nat)
      requires rd <= 31 && at + 4 <= memory.Length && (defaultPiece == 0 || defaultPiece == 0xffff)
      modifies memory
      ensures Written(old(memory[..]), memory[..], at, EncodeAll(MoveTail(rd, piece, defaultPiece, 4, true)))
      ensures count == |MoveTail(rd, piece, defaultPiece, 4, true)| && next == at + count
    {
      next, count := at, 0;
      var first := true;
      ghost var all := EncodeAll(MoveTail(rd, piece, defaultPiece, 4, true));
      ghost var done: seq<Word> := [];
      assert done + all == all;
      var k := 4;
      while k > 0
        invariant k <= 4 && count == |done| && next == at + count && count + k <= 4
        invariant Written(old(memory[..]), memory[..], at, done)
        invariant done + EncodeAll(MoveTail(rd, piece, defaultPiece, k, first)) == all
      {
        hide Encode, MovePiece, EncodeAll;
        k := k - 1;
        if piece[k] != defaultPiece || (k == 0 && first) {
          ghost var w, before := Encode(MovePiece(rd, piece, defaultPiece, k, first)), memory[..];
          PieceEmitted(rd, piece, defaultPiece, k, first, done, all);
          count := count + 1;
          next := EmitPiece(next, rd, piece, defaultPiece, k, first);
          first := false;
          WrittenCompose(old(memory[..]), before, memory[..], at, done, [w]);
          done := done + [w];
        }
      }
      assert done == all;
    }

    method EmitMovImmediate(at: nat, rd: nat, immediate: X) returns (next: nat, bytes: nat)
      requires rd <= 31 && at + 4 <= memory.Length
      modifies memory
      ensures Written(old(memory[..]), memory[..], at, EncodeAll(MoveImmediate(rd, immediate)))
      ensures next == at + |MoveImmediate(rd, immediate)| && bytes == 4 * |MoveImmediate(rd, immediate)|
    {
      var piece := PiecesOf(immediate);
      var count := 0;
      if piece[3] == 0 && piece[2] == 0 && piece[1] == 0xffff {
        next := EmitInstruction(at, AssembleMov(0, 0, rd, 0xffff - piece[0], 0));
        count := count + 1;
        assert EncodeAll(MoveImmediate(rd, immediate)) == [AssembleMov(0, 0, rd, 0xffff - piece[0], 0)];
      } else {
        var zeroPieces := Count(piece, 0);
        var ffffPieces := Count(piece, 0xffff);
        var defaultPiece := if ffffPieces > zeroPieces then 0xffff else 0;
        next, count := EmitPieces(at, rd, piece, defaultPiece);
      }
      bytes := 4 * count;
    }

    method EmitOne(at: nat, w: Word) returns (bytes: nat)
      requires at < memory.Length
      modifies memory
      ensures Written(old(memory[..]), memory[..], at, [w]) && bytes == 4
    {
      var n := EmitInstruction(at, w);
      bytes := 4;
    }

    /** Two instructions in a row. */
    method EmitTwo(at: nat, v: Word, w: Word) returns (bytes: nat)
      requires at + 2 <= memory.Length
      modifies memory
      ensures Written(old(memory[..]), memory[..], at, [v, w]) && bytes == 8
    {
      var n := EmitInstruction(at, v);
      ghost var before := memory[..];
      n := EmitInstruction(n, w);
      WrittenCompose(old(memory[..]), before, memory[..], at, [v], [w]);
      assert [v] + [w] == [v, w];
      bytes := 8;
    }

    /** The target in x17, and two instructions. */
    method EmitFar(t: X, v: Word, w: Word) returns (bytes: nat)
      requires memory.Length >= 6
      modifies memory
      ensures Written(old(memory[..]), memory[..], 0, EncodeAll(MoveImmediate(17, t)) + [v, w])
      ensures bytes == 4 * |MoveImmediate(17, t)| + 8
    {
      var n, b := EmitMovImmediate(0, 17, t);
      ghost var before := memory[..];
      var b' := EmitTwo(n, v, w);
      WrittenCompose(old(memory[..]), before, memory[..], 0, EncodeAll(MoveImmediate(17, t)), [v, w]);
      bytes := b + b';
    }

    /** The target in x17, and one instruction. */
    method EmitIndirect(t: X, w: Word) returns (bytes: nat)
      requires memory.Length >= 5
      modifies memory
      ensures Written(old(memory[..]), memory[..], 0, EncodeAll(MoveImmediate(17, t)) + [w])
      ensures bytes == 4 * |MoveImmediate(17, t)| + 4
    {
      var n, b := EmitMovImmediate(0, 17, t);
      ghost var before := memory[..];
      var b' := EmitOne(n, w);
      WrittenCompose(old(memory[..]), before, memory[..], 0, EncodeAll(MoveImmediate(17, t)), [w]);
      bytes := b + b';
    }

    /** Emit whichever of the three forms fits. */
    method EmitForms(t: X, dest: X, near: int, one: Word, around: Word, ghost words: seq<Word>) returns (bytes: nat)
      requires memory.Length >= 6 && Forms(words, t, dest, near, one, around)
      modifies memory
      ensures Written(old(memory[..]), memory[..], 0, words) && bytes == 4 * |words|
    {
      var delta := Distance(t, dest);
      var delta4 := Distance(t, Wrap(dest + 4));
      if -near <= delta < near {
        bytes := EmitOne(0, one);
      } else if -0x8000000 <= delta4 < 0x8000000 {
        bytes := EmitTwo(0, around, AssembleBranch(false, delta4));
      } else {
        bytes := EmitFar(t, around, AssembleBr(17, false));
      }
    }

    /** CopyBcc */
    method CopyBcc(source: X, dest: X, mem: Memory, decoded: Instr) returns (bytes: nat)
      requires decoded.Bcond? && WellFormed(decoded) && Aligned(source) && Aligned(dest) && memory.Length >= 6
      modifies this`target, memory
      ensures RelativeCopied(decoded, source, dest, mem, old(memory[..]), memory[..], old(target), target, bytes)
    {
      hide Written, Forms, CopyTest, EncodeAll, Wrap, Distance, MoveImmediate;
      TestOfBranch(decoded);
      WrapAligned(source + decoded.offset);
      var s := TestOf(decoded);
      var t := Wrap(source + decoded.offset);
      target := Target(t);
      var delta := Distance(t, dest);
      CopyTestForms(s, t, dest);
      bytes := EmitForms(t, dest, 0x100000, AssembleBcc(s.cond, delta),
                         AssembleBcc(s.Flipped().cond, 8),
                         EncodeAll(CopyTest(s, t, dest)));
    }

    /** CopyCbz */
    method CopyCbz(source: X, dest: X, mem: Memory, decoded: Instr) returns (bytes: nat)
      requires decoded.Cbz? && WellFormed(decoded) && Aligned(source) && Aligned(dest) && memory.Length >= 6
      modifies this`target, memory
      ensures RelativeCopied(decoded, source, dest, mem, old(memory[..]), memory[..], old(target), target, bytes)
    {
      hide Written, Forms, CopyTest, EncodeAll, Wrap, Distance, MoveImmediate;
      TestOfBranch(decoded);
      WrapAligned(source + decoded.offset);
      var s := TestOf(decoded);
      var t := Wrap(source + decoded.offset);
      target := Target(t);
      var delta := Distance(t, dest);
      CopyTestForms(s, t, dest);
      bytes := EmitForms(t, dest, 0x100000, AssembleCbz(s.size, s.nz, s.rt, delta),
                         AssembleCbz(s.size, 1 - s.nz, s.rt, 8),
                         EncodeAll(CopyTest(s, t, dest)));
    }

    /** CopyTbz */
    method CopyTbz(source: X, dest: X, mem: Memory, decoded: Instr) returns (bytes: nat)
      requires decoded.Tbz? && WellFormed(decoded) && Aligned(source) && Aligned(dest) && memory.Length >= 6
      modifies this`target, memory
      ensures RelativeCopied(decoded, source, dest, mem, old(memory[..]), memory[..], old(target), target, bytes)
    {
      hide Written, Forms, CopyTest, EncodeAll, Wrap, Distance, MoveImmediate;
      TestOfBranch(decoded);
      WrapAligned(source + decoded.offset);
      var s := TestOf(decoded);
      var t := Wrap(source + decoded.offset);
      target := Target(t);
      var delta := Distance(t, dest);
      CopyTestForms(s, t, dest);
      bytes := EmitForms(t, dest, 0x2000, AssembleTbz(s.size, s.nz, s.rt, s.bit, delta),
                         AssembleTbz(s.size, 1 - s.nz, s.rt, s.bit, 8),
                         EncodeAll(CopyTest(s, t, dest)));
    }

    /** CopyB_or_Bl */
    method CopyBOrBl(source: X, dest: X, mem: Memory, decoded: Instr, link: bool) returns (bytes: nat)
      requires decoded.B? && decoded.link == link && WellFormed(decoded)
      requires Aligned(source) && Aligned(dest) && memory.Length >= 6
      modifies this`target, memory
      ensures RelativeCopied(decoded, source, dest, mem, old(memory[..]), memory[..], old(target), target, bytes)
    {
      hide Written, EncodeAll, Wrap, Distance, MoveImmediate, CopyBranch, AssembleBranch, AssembleBr;
      WrapAligned(source + decoded.offset);
      var t := Wrap(source + decoded.offset);
      target := Target(t);
      var delta := Distance(t, dest);
      CopyBranchWords(link, t, dest);
      if -0x8000000 <= delta < 0x8000000 {
        bytes := EmitOne(0, AssembleBranch(link, delta));
      } else {
        bytes := EmitIndirect(t, AssembleBr(17, link));
      }
    }

    /** CopyAdr, for ADR and for ADRP */
    method CopyAdrOrAdrp(source: X, dest: X, mem: Memory, decoded: Instr) returns (bytes: nat)
      requires (decoded.Adr? || decoded.Adrp?) && WellFormed(decoded)
      requires Aligned(source) && Aligned(dest) && memory.Length >= 6
      modifies memory
      ensures RelativeCopied(decoded, source, dest, mem, old(memory[..]), memory[..], target, target, bytes)
    {
      hide Written, EncodeAll, Wrap, Distance, MoveImmediate, CopyAdr, CopyAdrp, AssembleAdr, AssembleAdd32;
      if decoded.Adr? {
        var t := Wrap(source + decoded.offset);
        var delta := Distance(t, dest);
        var deltaPage := t / 0x1000 - dest / 0x1000;
        if -0x100000 <= delta < 0x100000 {
          bytes := EmitOne(0, AssembleAdr(0, decoded.rd, delta));
        } else if -0x100000 <= deltaPage < 0x100000 {
          bytes := EmitTwo(0, AssembleAdr(1, decoded.rd, deltaPage), AssembleAdd32(decoded.rd, decoded.rd, t % 0x1000));
        } else {
          var n, b := EmitMovImmediate(0, decoded.rd, t);
          bytes := b;
        }
        CopyAdrWords(decoded.rd, t, dest);
      } else {
        var t := Wrap((source / 0x1000 + decoded.pages) * 0x1000);
        var deltaPage := t / 0x1000 - dest / 0x1000;
        if -0x100000 <= deltaPage < 0x100000 {
          bytes := EmitOne(0, AssembleAdr(1, decoded.rd, deltaPage));
        } else {
          var n, b := EmitMovImmediate(0, decoded.rd, t);
          bytes := b;
        }
        CopyAdrWords(decoded.rd, t, dest);
      }
    }

    /** CopyLdrLiteral.  The value of a literal out of reach is read now. */
    method CopyLiteral(source: X, dest: X, mem: Memory, decoded: Instr) returns (bytes: nat)
      requires decoded.LdrLit? && WellFormed(decoded) && Aligned(source) && Aligned(dest) && memory.Length >= 6
      modifies memory
      ensures RelativeCopied(decoded, source, dest, mem, old(memory[..]), memory[..], target, target, bytes)
    {
      hide Written, EncodeAll, Wrap, Distance, MoveImmediate, Literal, CopyLdrLiteral;
      hide AssembleLdrLit, AssembleLdrVector;
      WrapAligned(source + decoded.offset);
      var t := Wrap(source + decoded.offset);
      var delta := Distance(t, dest);
      CopyLiteralWords(decoded.size, decoded.vector, decoded.rt, t, dest, mem);
      if -0x200000 <= delta < 0x200000 {
        bytes := EmitOne(0, AssembleLdrLit(decoded.size, Num(decoded.vector), decoded.rt, delta));
      } else if !decoded.vector {
        var value: X := 0;
        if decoded.size < 3 {
          value := Literal(mem, decoded.size, t);
        }
        var n, b := EmitMovImmediate(0, decoded.rt, value);
        bytes := b;
      } else {
        bytes := EmitIndirect(t, AssembleLdrVector(2 + decoded.size, decoded.rt, 17, 0));
      }
    }

    /** CopyInstruction: the address after the source instruction, the target of a branch, and by how many bytes the
        copy is longer.  `mem` is what the memory holds, for the literals. */
    method CopyInstruction(source: X, dest: X, mem: Memory, instruction: Word) returns (next: X, extra: int)
      requires Aligned(source) && Aligned(dest) && memory.Length >= 6
      modifies this`target, memory
      ensures next == End(source, 1)
      ensures var words, decoded := CopyWords(instruction, source, dest, mem), Decode(instruction);
        && Written(old(memory[..]), memory[..], 0, words)
        && extra == 4 * (|words| - 1)
        && target == if IsTest(decoded) || decoded.B? then Target(TargetOf(decoded, source)) else old(target)
    {
      hide Decode, Written, CopyOf, EncodeAll, Wrap;
      var decoded := Decode(instruction);
      var bytes;
      match decoded {
        case Adr(_, _) => bytes := CopyAdrOrAdrp(source, dest, mem, decoded);
        case Adrp(_, _) => bytes := CopyAdrOrAdrp(source, dest, mem, decoded);
        case Bcond(_, _) => bytes := CopyBcc(source, dest, mem, decoded);
        case B(link, _) => bytes := CopyBOrBl(source, dest, mem, decoded, link);
        case Cbz(_, _, _, _) => bytes := CopyCbz(source, dest, mem, decoded);
        case Tbz(_, _, _, _) => bytes := CopyTbz(source, dest, mem, decoded);
        case LdrLit(_, _, _, _) => bytes := CopyLiteral(source, dest, mem, decoded);
        case _ => bytes := EmitOne(0, instruction);
      }
      next := Wrap(source + 4);
      extra := bytes - 4;
    }
  }
}
