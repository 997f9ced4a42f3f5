/** The copy of one A64 instruction, of any class, and when running it at the new address does what running the original
    at the old one does. */
module Arm64Copy {
  import Bits
  import opened Wrappers

  import opened Arm64Isa
  import opened Arm64Encode
  import opened Arm64Move
  import opened Arm64Relocate

  /** The instructions that depend on their address. */
  predicate IsRelative(i: Instr) {
    IsTest(i) || i.B? || i.Adr? || i.Adrp? || i.LdrLit?
  }

  lemma {:induction false} PageOfPages(p: int)
    ensures Wrap(p * 0x1000) % 0x1000 == 0
    decreases p < 0, if p < 0 then -p else p
  {
    var n := p * 0x1000;
    if n < 0 {
      assert n + TWO64 == (p + 0x10_0000_0000_0000) * 0x1000;
      PageOfPages(p + 0x10_0000_0000_0000);
    } else if n >= TWO64 {
      assert n - TWO64 == (p - 0x10_0000_0000_0000) * 0x1000;
      PageOfPages(p - 0x10_0000_0000_0000);
    }
  }

  /** The address that such an instruction at `source` refers to. */
  function TargetOf(i: Instr, source: X): X
    requires IsRelative(i)
  {
    if i.Adrp? then Wrap((source / 0x1000 + i.pages) * 0x1000) else Wrap(source + i.offset)
  }

  lemma TargetFacts(i: Instr, source: X)
    requires IsRelative(i) && WellFormed(i)
    ensures Aligned(source) && !i.Adr? && !i.Adrp? ==> Aligned(TargetOf(i, source))
    ensures i.Adrp? ==> TargetOf(i, source) % 0x1000 == 0
  {
    hide Wrap;
    if i.Adrp? {
      PageOfPages(source / 0x1000 + i.pages);
    } else if Aligned(source) && !i.Adr? {
      WrapAligned(source + i.offset);
    }
  }

  /** What the Copy function of an instruction that depends on its address emits.  The memory counts for literals only.
      */
  function CopyOf(i: Instr, source: X, dest: X, mem: Memory): (code: seq<Instr>)
    requires IsRelative(i) && WellFormed(i) && Aligned(source) && Aligned(dest)
    ensures 1 <= |code| <= 6
    ensures AllEncodable(code) && AllWellFormed(code)
  {
    TargetFacts(i, source);
    var t := TargetOf(i, source);
    match i
    case Adr(rd, _) => CopyAdr(rd, t, dest)
    case Adrp(rd, _) => CopyAdrp(rd, t, dest)
    case B(link, _) => CopyBranch(link, t, dest)
    case LdrLit(size, vector, rt, _) => CopyLdrLiteral(size, vector, rt, t, dest, mem)
    case _ =>
      TestOfBranch(i);
      CopyTest(TestOf(i), t, dest)
  }

  /** CopyInstruction: the words of the copy; an instruction that does not depend on its address is copied as it is. */
  function CopyWords(w: Word, source: X, dest: X, mem: Memory): (words: seq<Word>)
    requires Aligned(source) && Aligned(dest)
    ensures 1 <= |words| <= 6
  {
    if IsRelative(Decode(w)) then EncodeAll(CopyOf(Decode(w), source, dest, mem)) else [w]
  }

  /** Whether the copy uses x17: it does for targets that no direct branch reaches, from the first word of the copy or,
      for conditional branches that do not stay one word, from the second one; and for far loads of vector registers. */
  predicate Scratched(i: Instr, source: X, dest: X)
    requires WellFormed(i) && Aligned(source) && Aligned(dest)
  {
    IsRelative(i) &&
    var t := TargetOf(i, source);
    var d, second := Distance(t, dest), Distance(t, Wrap(dest + 4));
    match i
    case B(_, _) => !(-0x800_0000 <= d < 0x800_0000)
    case LdrLit(_, vector, _, _) => vector && !(-0x20_0000 <= d < 0x20_0000)
    case Bcond(_, _) => !(-0x10_0000 <= d < 0x10_0000) && !(-0x800_0000 <= second < 0x800_0000)
    case Cbz(_, _, _, _) => !(-0x10_0000 <= d < 0x10_0000) && !(-0x800_0000 <= second < 0x800_0000)
    case Tbz(_, _, _, _) => !(-0x2000 <= d < 0x2000) && !(-0x800_0000 <= second < 0x800_0000)
    case _ => false
  }

  /** When the copy is right in every machine state.  For ADR a target beyond one megabyte, but within 2^20 pages, has
      to have 32 bits; a load of a literal goes wrong between one and two megabytes, and a prefetch beyond; a
      conditional branch that does not stay one word has to have an inverse, and must not be on x17 if the target is
      far. */
  predicate Sound(i: Instr, source: X, dest: X)
    requires WellFormed(i) && Aligned(source) && Aligned(dest)
  {
    IsRelative(i) ==>
      var t := TargetOf(i, source);
      var d, second, pages := Distance(t, dest), Distance(t, Wrap(dest + 4)), t / 0x1000 - dest / 0x1000;
      match i
      case Adr(rd, _) =>
        || -0x10_0000 <= d < 0x10_0000
        || !(-0x10_0000 <= pages < 0x10_0000)
        || (rd < 31 && t < 0x1_0000_0000)
      case LdrLit(size, vector, rt, _) =>
        if -0x20_0000 <= d < 0x20_0000 then -0x10_0000 <= d < 0x10_0000 || size == 3 || (!vector && rt == 31)
        else vector || size < 3 || rt == 31
      case Bcond(cond, _) => -0x10_0000 <= d < 0x10_0000 || cond < 14
      case Cbz(_, _, rt, _) => -0x10_0000 <= d < 0x10_0000 || -0x800_0000 <= second < 0x800_0000 || rt != 17
      case Tbz(_, _, rt, _) => -0x2000 <= d < 0x2000 || -0x800_0000 <= second < 0x800_0000 || rt != 17
      case _ => true
  }

  predicate Links(i: Instr) {
    (i.B? || i.Br?) && i.link
  }

  /** The state `r` after the copy is the state `s` after the original, which branched or not: at the same place, or at
      the end of the copy if the original went on to the next instruction; with the end of the copy in x30 if the
      original left its own end there; and with everything else the same, except x17 if `scratch` is set. */
  ghost predicate SameEffect(link: bool, scratch: bool, end: X, s: Cpu, branched: bool, r: Cpu)
    requires s.Valid() && r.Valid()
  {
    && r == s.(x := r.x, pc := if branched then s.pc else end)
    && forall k :: 0 <= k < 31 && (k != 17 || !scratch) ==> r.x[k] == if link && k == 30 then end else s.x[k]
  }

  /** Running the copy of `w` at `dest` does what running `w` at `source` does, in state `c`; literals have not changed
      since the copy was made. */
  ghost predicate SameRun(w: Word, source: X, dest: X, c: Cpu)
    requires Aligned(source) && Aligned(dest) && c.Valid()
  {
    var i, words := Decode(w), CopyWords(w, source, dest, c.mem);
    var s := Execute(i, c.(pc := source));
    SameEffect(Links(i), Scratched(i, source, dest), End(dest, |words|), s.0, s.1, RunWords(words, c.(pc := dest)).0)
  }

  // -------- By class

  /** The original of a conditional branch, against which a copy was compared by its condition and target. */
  lemma TestEffect(i: Instr, source: X, end: X, scratch: bool, c: Cpu, r: Cpu)
    requires IsTest(i) && WellFormed(i) && c.Valid() && r.Valid() && TestOf(i).Valid()
    ensures var s := Execute(i, c.(pc := source));
      SameEffect(false, scratch, end, s.0, s.1, r) <==> SameBranch(TestOf(i), TargetOf(i, source), end, scratch, c, r)
  {
    hide Wrap;
    TestOfBranch(i);
    ExecuteTest(TestOf(i), i.offset, c.(pc := source));
    PassesIgnoresPc(TestOf(i), c, source);
  }

  lemma TestSame(w: Word, source: X, dest: X, c: Cpu)
    requires IsTest(Decode(w)) && Aligned(source) && Aligned(dest) && c.Valid()
    requires Sound(Decode(w), source, dest)
    ensures SameRun(w, source, dest, c)
  {
    hide Decode, SameEffect, SameBranch, Wrap, Run, RunWords, CopyTest, Execute;
    var i := Decode(w);
    TargetFacts(i, source);
    TestOfBranch(i);
    var t, code := TestOf(i), CopyOf(i, source, dest, c.mem);
    CopyTestScratch(t, TargetOf(i, source), dest, c);
    TestEffect(i, source, End(dest, |code|), Scratched(i, source, dest), c,
               RunWords(EncodeAll(code), c.(pc := dest)).0);
  }

  lemma TestDiffers(w: Word, source: X, dest: X) returns (c: Cpu)
    requires IsTest(Decode(w)) && Aligned(source) && Aligned(dest)
    requires !Sound(Decode(w), source, dest)
    ensures c.Valid() && !SameRun(w, source, dest, c)
  {
    hide Decode, SameEffect, Wrap, Run, RunWords, CopyTest, Execute;
    var i := Decode(w);
    TargetFacts(i, source);
    TestOfBranch(i);
    var t, target := TestOf(i), TargetOf(i, source);
    if t.HasInverse() {
      c := Quiet(None).Set(17, Spoiler(t, target));
      TestOfX17Fails(t, target, dest);
    } else {
      c := Quiet(None);
      AlwaysFails(t, target, dest, c);
    }
    var code := CopyOf(i, source, dest, c.mem);
    TestEffect(i, source, End(dest, |code|), Scratched(i, source, dest), c,
               RunWords(EncodeAll(code), c.(pc := dest)).0);
  }

  lemma BranchSame(w: Word, source: X, dest: X, c: Cpu)
    requires Decode(w).B? && Aligned(source) && Aligned(dest) && c.Valid()
    ensures SameRun(w, source, dest, c)
  {
    hide Decode, Wrap, Run, RunWords, CopyBranch;
    var i := Decode(w);
    TargetFacts(i, source);
    CopyBranchCorrect(i.link, TargetOf(i, source), dest, c);
  }

  /** ADR and ADRP leave an address in a register, and go on. */
  lemma MovedEffect(rd: nat, t: X, source: X, dest: X, n: nat, c: Cpu, r: Cpu)
    requires c.Valid() && r.Valid() && rd <= 31
    ensures SameEffect(false, false, End(dest, n), c.(pc := source).Set(rd, t).Next(), false, r) <==>
            r == Moved(c.(pc := dest), rd, t, n)
  {
    hide End;
    var s := c.(pc := source).Set(rd, t).Next();
    if SameEffect(false, false, End(dest, n), s, false, r) {
      assert r.x == s.x;
    }
  }

  lemma AdrSame(w: Word, source: X, dest: X, c: Cpu)
    requires Decode(w).Adr? && Aligned(source) && Aligned(dest) && c.Valid()
    ensures SameRun(w, source, dest, c) <==>
            LoadsAddress(Decode(w).rd, TargetOf(Decode(w), source), dest, CopyOf(Decode(w), source, dest, c.mem), c)
  {
    hide Decode, Wrap, Run, RunWords, SameEffect, AdrCopied, CopyAdr, Moved, End;
    var i := Decode(w);
    TargetFacts(i, source);
    var t, code := TargetOf(i, source), CopyOf(i, source, dest, c.mem);
    CopyAdrRuns(i.rd, t, dest, c);
    MovedEffect(i.rd, t, source, dest, |code|, c, RunWords(EncodeAll(code), c.(pc := dest)).0);
  }

  lemma AdrDiffers(w: Word, source: X, dest: X) returns (c: Cpu)
    requires Decode(w).Adr? && Aligned(source) && Aligned(dest)
    requires !Sound(Decode(w), source, dest)
    ensures c.Valid() && !SameRun(w, source, dest, c)
  {
    hide Decode, Wrap, Run, RunWords, SameRun, LoadsAddress;
    var i := Decode(w);
    TargetFacts(i, source);
    c := Quiet(None).(sp := TWO32);
    AdrSame(w, source, dest, c);
    CopyAdrCorrectness(i.rd, TargetOf(i, source), dest, c);
  }

  lemma AdrpSame(w: Word, source: X, dest: X, c: Cpu)
    requires Decode(w).Adrp? && Aligned(source) && Aligned(dest) && c.Valid()
    ensures SameRun(w, source, dest, c)
  {
    hide Decode, Wrap, Run, RunWords, SameEffect, CopyAdrp, Moved, End;
    var i := Decode(w);
    TargetFacts(i, source);
    var t, code := TargetOf(i, source), CopyOf(i, source, dest, c.mem);
    CopyAdrpCorrect(i.rd, t, dest, c);
    MovedEffect(i.rd, t, source, dest, |code|, c, RunWords(EncodeAll(code), c.(pc := dest)).0);
  }

  lemma LoadIgnoresPc(at: X, size: nat, vector: bool, rt: nat, c: Cpu, pc: X)
    requires c.Valid() && size < 4 && rt <= 31
    ensures c.(pc := pc).LoadFrom(at, size, vector, rt) == c.LoadFrom(at, size, vector, rt).(pc := pc)
  {
  }

  lemma LiteralSame(w: Word, source: X, dest: X, c: Cpu)
    requires Decode(w).LdrLit? && Aligned(source) && Aligned(dest) && c.Valid()
    requires Sound(Decode(w), source, dest)
    ensures SameRun(w, source, dest, c)
  {
    hide Decode, Wrap, Run, RunWords, CopyLdrLiteral, Cpu.LoadFrom, Distance;
    var i := Decode(w);
    TargetFacts(i, source);
    var t := TargetOf(i, source);
    LoadIgnoresPc(t, i.size, i.vector, i.rt, c, source);
    SoundLiteral(i.size, i.vector, i.rt, t, dest, c);
    RunEncoded(CopyOf(i, source, dest, c.mem), c.(pc := dest));
  }

  /** A load beyond its reach reads another address. */
  lemma NearLiteralDiffers(w: Word, source: X, dest: X, c: Cpu)
    requires Decode(w).LdrLit? && Aligned(source) && Aligned(dest)
    requires !Sound(Decode(w), source, dest) && Fits(Distance(TargetOf(Decode(w), source), dest), LDR_TEST)
    requires c == Quiet(Some(TargetOf(Decode(w), source)))
    ensures !SameRun(w, source, dest, c)
  {
    hide Decode, Wrap, Run, RunWords, Distance, Cpu.LoadFrom, LiteralOffset, Quiet, CopyLdrLiteral, End;
    var i := Decode(w);
    TargetFacts(i, source);
    var t := TargetOf(i, source);
    var u := Wrap(dest + LiteralOffset(Distance(t, dest)));
    BeyondLiteral(t, dest);
    LoadTellsApart(i.size, i.vector, i.rt, t, u);
    LoadIgnoresPc(t, i.size, i.vector, i.rt, c, source);
    LiteralNearRuns(i.size, i.vector, i.rt, t, dest, c);
    RunEncoded(CopyOf(i, source, dest, c.mem), c.(pc := dest));
  }

  /** A prefetch that is far away clears a register. */
  lemma FarLiteralDiffers(w: Word, source: X, dest: X, c: Cpu)
    requires Decode(w).LdrLit? && Aligned(source) && Aligned(dest)
    requires !Sound(Decode(w), source, dest) && !Fits(Distance(TargetOf(Decode(w), source), dest), LDR_TEST)
    requires c == Quiet(None).Set(Decode(w).rt, 1)
    ensures !SameRun(w, source, dest, c)
  {
    hide Decode, Wrap, Run, RunWords, Distance, End, MoveImmediate;
    var i := Decode(w);
    TargetFacts(i, source);
    MoveRuns(i.rt, 0, c.(pc := dest));
    assert Moved(c.(pc := dest), i.rt, 0, |MoveImmediate(i.rt, 0)|).x[i.rt] == 0;
    assert c.x[i.rt] == 1;
    RunEncoded(CopyOf(i, source, dest, c.mem), c.(pc := dest));
  }

  lemma LiteralDiffers(w: Word, source: X, dest: X) returns (c: Cpu)
    requires Decode(w).LdrLit? && Aligned(source) && Aligned(dest)
    requires !Sound(Decode(w), source, dest)
    ensures c.Valid() && !SameRun(w, source, dest, c)
  {
    hide Decode, SameRun, Distance;
    var t := TargetOf(Decode(w), source);
    if Fits(Distance(t, dest), LDR_TEST) {
      c := Quiet(Some(t));
      NearLiteralDiffers(w, source, dest, c);
    } else {
      c := Quiet(None).Set(Decode(w).rt, 1);
      FarLiteralDiffers(w, source, dest, c);
    }
  }

  /** An instruction that does not depend on its address, at another address. */
  lemma ExecuteElsewhere(i: Instr, source: X, dest: X, c: Cpu)
    requires WellFormed(i) && !IsRelative(i) && c.Valid()
    ensures var s := Execute(i, c.(pc := source));
      SameEffect(Links(i), false, End(dest, 1), s.0, s.1, Execute(i, c.(pc := dest)).0)
  {
    hide Wrap, InsertPiece, ShiftPiece, Cpu.LoadFrom;
    if i.LdrVector? {
      LoadIgnoresPc(c.Base(i.rn), i.size, true, i.rt, c, source);
      LoadIgnoresPc(c.Base(i.rn), i.size, true, i.rt, c, dest);
    }
  }

  lemma RunOneWord(w: Word, c: Cpu)
    requires c.Valid()
    ensures RunWords([w], c) == Execute(Decode(w), c)
  {
    hide Decode, Execute;
    assert [w][1..] == [];
    assert RunWords([w][1..], Execute(Decode(w), c).0) == (Execute(Decode(w), c).0, false);
  }

  lemma OtherSame(w: Word, source: X, dest: X, c: Cpu)
    requires !IsRelative(Decode(w)) && Aligned(source) && Aligned(dest) && c.Valid()
    ensures SameRun(w, source, dest, c)
  {
    hide Decode, Execute, RunWords, SameEffect, End;
    ExecuteElsewhere(Decode(w), source, dest, c);
    RunOneWord(w, c.(pc := dest));
  }

  // -------- Every instruction

  lemma SoundIsSame(w: Word, source: X, dest: X, c: Cpu)
    requires Aligned(source) && Aligned(dest) && c.Valid() && Sound(Decode(w), source, dest)
    ensures SameRun(w, source, dest, c)
  {
    hide SameRun, Decode;
    match Decode(w)
    case Adr(rd, _) =>
      AdrSame(w, source, dest, c);
      CopyAdrCorrectness(rd, TargetOf(Decode(w), source), dest, c);
    case Adrp(_, _) => AdrpSame(w, source, dest, c);
    case B(_, _) => BranchSame(w, source, dest, c);
    case LdrLit(_, _, _, _) => LiteralSame(w, source, dest, c);
    case _ => if IsTest(Decode(w)) { TestSame(w, source, dest, c); } else { OtherSame(w, source, dest, c); }
  }

  lemma UnsoundDiffers(w: Word, source: X, dest: X) returns (c: Cpu)
    requires Aligned(source) && Aligned(dest) && !Sound(Decode(w), source, dest)
    ensures c.Valid() && !SameRun(w, source, dest, c)
  {
    hide SameRun, Decode;
    match Decode(w)
    case Adr(_, _) => c := AdrDiffers(w, source, dest);
    case LdrLit(_, _, _, _) => c := LiteralDiffers(w, source, dest);
    case _ => c := TestDiffers(w, source, dest);
  }

  /** For every instruction word: its copy does what the original did, in every machine state, if and only if `Sound`
      holds of the instruction and the two addresses. */
  lemma CopyCorrectness(w: Word, source: X, dest: X)
    requires Aligned(source) && Aligned(dest)
    ensures (forall c: Cpu :: c.Valid() ==> SameRun(w, source, dest, c)) <==> Sound(Decode(w), source, dest)
  {
    hide SameRun, Decode, Sound;
    if Sound(Decode(w), source, dest) {
      forall c: Cpu | c.Valid() ensures SameRun(w, source, dest, c) {
        SoundIsSame(w, source, dest, c);
      }
    } else {
      var c := UnsoundDiffers(w, source, dest);
    }
  }

  // -------- How long the copy is

  /** The instruction with another offset. */
  function Retargeted(i: Instr, offset: int): Instr
    requires IsRelative(i)
  {
    match i
    case Adr(rd, _) => Adr(rd, offset)
    case Adrp(rd, _) => Adrp(rd, offset)
    case Bcond(cond, _) => Bcond(cond, offset)
    case B(link, _) => B(link, offset)
    case Cbz(wide, nz, rt, _) => Cbz(wide, nz, rt, offset)
    case Tbz(bit, nz, rt, _) => Tbz(bit, nz, rt, offset)
    case LdrLit(size, vector, rt, _) => LdrLit(size, vector, rt, offset)
  }

  /** The distance from the copy to the target, in pages for ADRP. */
  function OffsetAt(i: Instr, source: X, dest: X): int
    requires IsRelative(i)
  {
    var t := TargetOf(i, source);
    if i.Adrp? then t / 0x1000 - dest / 0x1000 else Distance(t, dest)
  }

  /** A target that is in reach of the instruction itself (for TBZ, in a quarter of its reach) is reached by the same
      instruction with another offset, and the copy is right in every machine state. */
  lemma ReachedIsRetargeted(w: Word, source: X, dest: X, mem: Memory)
    requires Aligned(source) && Aligned(dest) && IsRelative(Decode(w))
    requires var i := Decode(w);
      var r := if i.B? then 0x800_0000 else if i.Tbz? then 0x2000 else 0x10_0000;
      -r <= OffsetAt(i, source, dest) < r
    ensures var i, words := Decode(w), CopyWords(w, source, dest, mem);
      && |words| == 1 && Decode(words[0]) == Retargeted(i, OffsetAt(i, source, dest))
      && Sound(i, source, dest) && !Scratched(i, source, dest)
  {
    hide Decode, Distance, Wrap, MoveImmediate;
    var i := Decode(w);
    TargetFacts(i, source);
    var t := TargetOf(i, source);
    DistanceReaches(t, dest);
    if IsTest(i) {
      TestOfBranch(i);
    } else if i.LdrLit? {
      LiteralOffsetKept(Distance(t, dest));
    }
    assert CopyOf(i, source, dest, mem) == [Retargeted(i, OffsetAt(i, source, dest))];
    DecodeEncode(Retargeted(i, OffsetAt(i, source, dest)));
  }

  /** The words of the copy, at every distance: one for a target in reach, one for ADR within 2^20 pages less, two for a
      conditional branch around a B; else those that move an address, or the value of a literal, to a register, and the
      branch or the load that uses it. */
  lemma CopyLength(w: Word, source: X, dest: X, mem: Memory)
    requires Aligned(source) && Aligned(dest) && IsRelative(Decode(w))
    ensures var i := Decode(w);
      var t := TargetOf(i, source);
      var d, second, pages := Distance(t, dest), Distance(t, Wrap(dest + 4)), t / 0x1000 - dest / 0x1000;
      |CopyWords(w, source, dest, mem)| ==
      match i
      case Adr(_, _) =>
        if -0x10_0000 <= d < 0x10_0000 then 1 else if -0x10_0000 <= pages < 0x10_0000 then 2 else MoveLength(t)
      case Adrp(_, _) => if -0x10_0000 <= pages < 0x10_0000 then 1 else MoveLength(t)
      case B(_, _) => if -0x800_0000 <= d < 0x800_0000 then 1 else MoveLength(t) + 1
      case LdrLit(size, vector, _, _) =>
        if -0x20_0000 <= d < 0x20_0000 then 1
        else if vector then MoveLength(t) + 1
        else MoveLength(if size < 3 then Literal(mem, size, t) else 0)
      case _ =>
        var r := if i.Tbz? then 0x2000 else 0x10_0000;
        if -r <= d < r then 1 else if -0x800_0000 <= second < 0x800_0000 then 2 else MoveLength(t) + 2
  {
    hide Decode, Distance, Wrap, MoveImmediate, MoveLength, LiteralOffset, Literal;
    var i := Decode(w);
    TargetFacts(i, source);
    var t := TargetOf(i, source);
    MoveImmediateLength(17, t);
    match i {
      case Adr(rd, _) => MoveImmediateLength(rd, t);
      case Adrp(rd, _) => MoveImmediateLength(rd, t);
      case B(_, _) =>
      case LdrLit(size, _, rt, _) => MoveImmediateLength(rt, if size < 3 then Literal(mem, size, t) else 0);
      case _ => TestOfBranch(i);
    }
  }
}
