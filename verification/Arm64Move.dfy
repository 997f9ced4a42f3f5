/** EmitMovImmediate of disasm.cpp: a 64-bit constant in one to four move-wide instructions. */
module Arm64Move {
  import opened Arm64Isa
  import opened Arm64Encode

  /** A 64-bit value as its four 16-bit pieces, the lowest first. */
  type Pieces = p: seq<nat> | |p| == 4 && forall k :: 0 <= k < 4 ==> p[k] < 0x10000 witness [0, 0, 0, 0]

  function PiecesOf(v: X): Pieces {
    [v % 0x10000, v / 0x10000 % 0x10000, v / 0x1_0000_0000 % 0x10000, v / 0x1_0000_0000_0000 % 0x10000]
  }

  function Join(p: Pieces): X {
    p[0] + 0x10000 * p[1] + 0x1_0000_0000 * p[2] + 0x1_0000_0000_0000 * p[3]
  }

  lemma JoinPieces(v: X)
    ensures Join(PiecesOf(v)) == v
  {
    var q1 := v / 0x10000;
    var q2 := q1 / 0x10000;
    assert q2 == v / 0x1_0000_0000 && q2 / 0x10000 == v / 0x1_0000_0000_0000;
  }

  function Count(piece: Pieces, value: nat): nat {
    (if piece[3] == value then 1 else 0) + (if piece[2] == value then 1 else 0) +
    (if piece[1] == value then 1 else 0) + (if piece[0] == value then 1 else 0)
  }

  /** The piece that needs no instruction of its own. */
  function DefaultPiece(piece: Pieces): (d: nat)
    ensures d == 0 || d == 0xffff
  {
    if Count(piece, 0xffff) > Count(piece, 0) then 0xffff else 0
  }

  /** The instruction for piece `k`; the first one also sets all other pieces to the default.  The exclusive or of a
      piece with 0xffff is its difference from 0xffff. */
  function MovePiece(rd: nat, piece: Pieces, d: nat, k: nat, first: bool): (i: Instr)
    requires rd <= 31 && k <= 3
    ensures Encodable(i) && WellFormed(i)
  {
    if !first then Movk(true, rd, piece[k], k)
    else if d == 0xffff then Movn(true, rd, 0xffff - piece[k], k)
    else Movz(true, rd, piece[k], k)
  }

  /** The instructions for the pieces below `k`. */
  function MoveTail(rd: nat, piece: Pieces, d: nat, k: nat, first: bool): (code: seq<Instr>)
    requires rd <= 31 && k <= 4
    ensures |code| <= k
    ensures first && k > 0 ==> |code| >= 1
    ensures AllEncodable(code) && AllWellFormed(code)
  {
    if k == 0 then []
    else if piece[k - 1] != d || (k == 1 && first) then
      [MovePiece(rd, piece, d, k - 1, first)] + MoveTail(rd, piece, d, k - 1, false)
    else MoveTail(rd, piece, d, k - 1, first)
  }

  predicate FitsMovn32(piece: Pieces) {
    piece[3] == 0 && piece[2] == 0 && piece[1] == 0xffff
  }

  function MoveImmediate(rd: nat, v: X): (code: seq<Instr>)
    requires rd <= 31
    ensures 1 <= |code| <= 4
    ensures AllEncodable(code) && AllWellFormed(code)
  {
    var piece := PiecesOf(v);
    if FitsMovn32(piece) then [Movn(false, rd, 0xffff - piece[0], 0)]
    else MoveTail(rd, piece, DefaultPiece(piece), 4, true)
  }

  // -------- What the instructions do

  lemma ShiftPieces(imm: nat)
    ensures ShiftPiece(imm, 0) == imm && ShiftPiece(imm, 1) == 0x10000 * imm
    ensures ShiftPiece(imm, 2) == 0x1_0000_0000 * imm && ShiftPiece(imm, 3) == 0x1_0000_0000_0000 * imm
  {
    assert ShiftPiece(imm, 2) == 0x10000 * ShiftPiece(imm, 1);
    assert ShiftPiece(imm, 3) == 0x10000 * ShiftPiece(imm, 2);
  }

  lemma InsertStep(p: nat, q: nat, k: nat, imm: nat)
    requires p < 0x10000
    ensures InsertPiece(p + 0x10000 * q, 0, imm) == imm + 0x10000 * q
    ensures InsertPiece(p + 0x10000 * q, k + 1, imm) == p + 0x10000 * InsertPiece(q, k, imm)
  {
    Digit(p, 0x10000, q);
  }

  /** The value of any number of pieces. */
  function Value(p: seq<nat>): nat {
    if p == [] then 0 else p[0] + 0x10000 * Value(p[1..])
  }

  lemma {:induction false} InsertIntoValue(p: seq<nat>, k: nat, imm: nat)
    requires k < |p| && forall j :: 0 <= j < |p| ==> p[j] < 0x10000
    ensures InsertPiece(Value(p), k, imm) == Value(p[k := imm])
  {
    if k == 0 {
      InsertStep(p[0], Value(p[1..]), 0, imm);
      assert p[0 := imm][1..] == p[1..];
    } else {
      InsertStep(p[0], Value(p[1..]), k - 1, imm);
      InsertIntoValue(p[1..], k - 1, imm);
      assert p[k := imm][1..] == p[1..][k - 1 := imm];
    }
  }

  lemma JoinIsValue(p: Pieces)
    ensures Join(p) == Value(p)
  {
    var q := p[1..];
    var r := q[1..];
    assert Value(r[1..]) == p[3] by { assert r[1..] == [p[3]]; }
    assert Value(r) == p[2] + 0x10000 * p[3];
    assert Value(q) == p[1] + 0x10000 * Value(r);
  }

  /** MOVK replaces one piece. */
  lemma InsertIntoJoin(p: Pieces, k: nat, imm: nat)
    requires k <= 3 && imm < 0x10000
    ensures InsertPiece(Join(p), k, imm) == Join(p[k := imm])
  {
    JoinIsValue(p);
    JoinIsValue(p[k := imm]);
    InsertIntoValue(p, k, imm);
  }

  /** The pieces of `p` from `k` on, and `d` below. */
  function Mixed(p: Pieces, d: nat, k: nat): Pieces
    requires d < 0x10000 && k <= 4
  {
    [if k <= 0 then p[0] else d, if k <= 1 then p[1] else d, if k <= 2 then p[2] else d, if k <= 3 then p[3] else d]
  }

  /** MOVZ and MOVN set one piece and make the others zero, or all ones. */
  lemma SinglePiece(q: nat, k: nat)
    requires q < 0x10000 && k <= 3
    ensures Wrap(ShiftPiece(q, k)) == Join([0, 0, 0, 0][k := q])
    ensures Wrap(TWO64 - 1 - ShiftPiece(0xffff - q, k)) == Join([0xffff, 0xffff, 0xffff, 0xffff][k := q])
  {
    ShiftPieces(q);
    ShiftPieces(0xffff - q);
    if k == 0 {
    } else if k == 1 {
    } else if k == 2 {
    } else {
    }
  }

  lemma FirstPiece(p: Pieces, d: nat, k: nat)
    requires (d == 0 || d == 0xffff) && k <= 3
    requires forall j :: k < j <= 3 ==> p[j] == d
    ensures d == 0 ==> Wrap(ShiftPiece(p[k], k)) == Join(Mixed(p, d, k))
    ensures d == 0xffff ==> Wrap(TWO64 - 1 - ShiftPiece(0xffff - p[k], k)) == Join(Mixed(p, d, k))
  {
    assert Mixed(p, d, k) == [d, d, d, d][k := p[k]];
    SinglePiece(p[k], k);
  }

  lemma NextPiece(p: Pieces, d: nat, k: nat)
    requires d < 0x10000 && k <= 3
    ensures Wrap(InsertPiece(Join(Mixed(p, d, k + 1)), k, p[k])) == Join(Mixed(p, d, k))
  {
    InsertIntoJoin(Mixed(p, d, k + 1), k, p[k]);
    assert Mixed(p, d, k + 1)[k := p[k]] == Mixed(p, d, k);
  }

  lemma MovePieceRuns(rd: nat, p: Pieces, d: nat, k: nat, first: bool, c: Cpu)
    requires c.Valid() && rd <= 31 && (d == 0 || d == 0xffff) && k <= 3
    requires if first then forall j :: k < j <= 3 ==> p[j] == d else rd == 31 || c.x[rd] == Join(Mixed(p, d, k + 1))
    ensures Execute(MovePiece(rd, p, d, k, first), c) == (c.Set(rd, Join(Mixed(p, d, k))).Next(), false)
  {
    if rd == 31 {
    } else if first {
      FirstPiece(p, d, k);
    } else {
      NextPiece(p, d, k);
    }
  }

  /** The state after `n` more instructions that set register `rd` to `v`. */
  function Moved(c: Cpu, rd: nat, v: X, n: nat): (r: Cpu)
    requires c.Valid() && rd <= 31
    ensures r.Valid()
  {
    c.Set(rd, v).(pc := End(c.pc, n))
  }

  lemma MovedTwice(c: Cpu, rd: nat, u: X, v: X, m: nat, n: nat)
    requires c.Valid() && rd <= 31
    ensures Moved(Moved(c, rd, u, m), rd, v, n) == Moved(c, rd, v, m + n)
  {
    assert rd < 31 ==> c.x[rd := u][rd := v] == c.x[rd := v];
    EndPlus(c.pc, m, n);
  }

  lemma {:induction false} MoveTailRuns(rd: nat, p: Pieces, d: nat, k: nat, first: bool, c: Cpu)
    requires c.Valid() && rd <= 31 && (d == 0 || d == 0xffff) && k <= 4 && (k == 0 ==> !first)
    requires if first then forall j :: k <= j <= 3 ==> p[j] == d else rd == 31 || c.x[rd] == Join(Mixed(p, d, k))
    ensures Run(MoveTail(rd, p, d, k, first), c) == (Moved(c, rd, Join(p), |MoveTail(rd, p, d, k, first)|), false)
    decreases k
  {
    hide Execute, MovePiece, InsertPiece, ShiftPiece, Join;
    var code := MoveTail(rd, p, d, k, first);
    if k == 0 {
      assert Mixed(p, d, 0) == p;
      assert rd < 31 ==> c.x[rd := Join(p)] == c.x;
    } else if p[k - 1] != d || (k == 1 && first) {
      MovePieceRuns(rd, p, d, k - 1, first, c);
      var u := Join(Mixed(p, d, k - 1));
      MoveTailRuns(rd, p, d, k - 1, false, c.Set(rd, u).Next());
      assert code[1..] == MoveTail(rd, p, d, k - 1, false);
      assert c.Set(rd, u).Next() == Moved(c, rd, u, 1);
      MovedTwice(c, rd, u, Join(p), 1, |code| - 1);
    } else {
      if !first { assert Mixed(p, d, k) == Mixed(p, d, k - 1); }
      MoveTailRuns(rd, p, d, k - 1, first, c);
    }
  }

  lemma Movn32Runs(rd: nat, p: Pieces, c: Cpu)
    requires c.Valid() && rd <= 31 && FitsMovn32(p)
    ensures Execute(Movn(false, rd, 0xffff - p[0], 0), c) == (Moved(c, rd, Join(p), 1), false)
  {
    ShiftPieces(0xffff - p[0]);
    assert TWO32 - 1 - (0xffff - p[0]) == Join(p);
  }

  lemma MoveRuns(rd: nat, v: X, c: Cpu)
    requires c.Valid() && rd <= 31
    ensures Run(MoveImmediate(rd, v), c) == (Moved(c, rd, v, |MoveImmediate(rd, v)|), false)
  {
    var p := PiecesOf(v);
    JoinPieces(v);
    if FitsMovn32(p) {
      Movn32Runs(rd, p, c);
      RunOne(Movn(false, rd, 0xffff - p[0], 0), c);
    } else {
      MoveTailRuns(rd, p, DefaultPiece(p), 4, true, c);
    }
  }

  /** For every 64-bit value: one to four instruction words that leave exactly that value in the register, and change
      nothing else. */
  lemma MoveImmediateRuns(rd: nat, v: X, c: Cpu)
    requires c.Valid() && rd <= 31
    ensures 1 <= |MoveImmediate(rd, v)| <= 4
    ensures RunWords(EncodeAll(MoveImmediate(rd, v)), c) == (Moved(c, rd, v, |MoveImmediate(rd, v)|), false)
  {
    MoveRuns(rd, v, c);
    RunEncoded(MoveImmediate(rd, v), c);
  }

  /** One instruction for a value of 32 bits with an upper half of all ones; else one for each piece that is not the
      most frequent one of zero and all ones, and never none. */
  function MoveLength(v: X): nat {
    var a, b, c, d := v % 0x10000, v / 0x10000 % 0x10000, v / 0x1_0000_0000 % 0x10000, v / 0x1_0000_0000_0000;
    var zeros := (if a == 0 then 1 else 0) + (if b == 0 then 1 else 0)
                 + (if c == 0 then 1 else 0) + (if d == 0 then 1 else 0);
    var ones := (if a == 0xffff then 1 else 0) + (if b == 0xffff then 1 else 0)
                + (if c == 0xffff then 1 else 0) + (if d == 0xffff then 1 else 0);
    var others := 4 - if ones > zeros then ones else zeros;
    if (b == 0xffff && c == 0 && d == 0) || others == 0 then 1 else others
  }

  lemma MoveTailLength(rd: nat, p: Pieces, d: nat, k: nat, first: bool)
    requires rd <= 31 && k <= 4
    ensures var others := |MoveTail(rd, p, d, k, false)|;
      |MoveTail(rd, p, d, k, first)| == if first && k > 0 && others == 0 then 1 else others
  {
    hide MovePiece;
  }

  lemma MoveImmediateLength(rd: nat, v: X)
    requires rd <= 31
    ensures |MoveImmediate(rd, v)| == MoveLength(v)
  {
    hide MovePiece;
    var p := PiecesOf(v);
    var d := DefaultPiece(p);
    MoveTailLength(rd, p, d, 4, true);
    assert |MoveTail(rd, p, d, 1, false)| == if p[0] == d then 0 else 1;
    assert |MoveTail(rd, p, d, 2, false)| == |MoveTail(rd, p, d, 1, false)| + if p[1] == d then 0 else 1;
    assert |MoveTail(rd, p, d, 3, false)| == |MoveTail(rd, p, d, 2, false)| + if p[2] == d then 0 else 1;
    assert |MoveTail(rd, p, d, 4, false)| == |MoveTail(rd, p, d, 3, false)| + if p[3] == d then 0 else 1;
  }

  lemma MoveThen(rd: nat, v: X, rest: seq<Instr>, c: Cpu)
    requires c.Valid() && rd <= 31 && AllWellFormed(rest)
    ensures Run(MoveImmediate(rd, v) + rest, c) == Run(rest, Moved(c, rd, v, |MoveImmediate(rd, v)|))
  {
    MoveRuns(rd, v, c);
    RunAppend(MoveImmediate(rd, v), rest, c);
  }
}
