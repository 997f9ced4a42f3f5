/** The x64 half of disasm.cpp: copying one instruction, with its prefixes, to another address (Intel SDM Vol. 2A,
    section 2.2.1.6). */
module X64Copy {
  import opened ByteBuffer
  import opened Wrappers

  /** An entry of the opcode tables: the sizes and offsets for CopyBytes, or the function that copies the opcode: one
      that chooses by the register field of the ModR/M byte or by the overrides, or another. */
  datatype Entry =
    | Bytes(fixed: nat, fixed16: nat, modOffset: nat := 0, relOffset: nat := 0,
            dynamic: bool := false, address: bool := false, noEnlarge: bool := false, rax: bool := false)
    | ByReg(reg: nat, chosen: Entry, others: Entry)
    | ByOverride(repeat: bool, overridden: Entry, plain: Entry)
    | Prefix | Segment | Rax | Operand66 | Address67 | F2 | F3 | Escape0F | Vex2 | Vex3 | Jump | Indirect | Invalid

  /** An opcode with a ModR/M byte, and one with a ModR/M byte and a byte-sized operand. */
  const MOD2 := Bytes(2, 2, modOffset := 1)
  const MOD2_1 := Bytes(3, 3, modOffset := 1)

  /** The opcode tables, the pointers in memory, and the module that references may be limited to. */
  datatype Tables = Tables(main: Byte -> Entry, extended: Byte -> Entry, pointers: int -> int,
                           moduleBegin: int, moduleEnd: int, limited: bool)

  datatype Overrides = Overrides(operand: bool, address: bool, rax: bool, f2: bool, f3: bool, segment: nat)

  datatype Target = NoTarget | Dynamic | Null | At(address: int)

  // -------- Signed fields

  predicate IsFieldSize(k: nat) {
    k == 1 || k == 2 || k == 4
  }

  /** Half the number of values a field can take. */
  function Half(k: nat): (h: nat)
    requires IsFieldSize(k)
  {
    if k == 1 then 0x80 else if k == 2 then 0x8000 else 0x8000_0000
  }

  predicate FitsIn(v: int, k: nat)
    requires IsFieldSize(k)
  {
    0 <= v + Half(k) < 2 * Half(k)
  }

  function Signed(b: seq<Byte>): int
    requires IsFieldSize(|b|)
  {
    var n := FromLe(b);
    if n < Half(|b|) then n else n - 2 * Half(|b|)
  }

  /** A number cut down to a field. */
  function Field(v: int, k: nat): (b: seq<Byte>)
    requires IsFieldSize(k)
    ensures |b| == k
  {
    Le(v % (2 * Half(k)), k)
  }

  /** A number cut down to `2 * half` values and read as signed. */
  lemma SignedRemainder(v: int, half: int)
    requires half == 0x80 || half == 0x8000 || half == 0x8000_0000
    ensures var n := v % (2 * half);
      (if n < half then n else n - 2 * half) == v <==> 0 <= v + half < 2 * half
  {
  }

  lemma SignedField(v: int, k: nat)
    requires IsFieldSize(k)
    ensures Signed(Field(v, k)) == v <==> FitsIn(v, k)
  {
    Limits();
    assert Limit(1) == 0x100 * Limit(0);
    hide Le, FromLe, Limit;
    SignedRemainder(v, Half(k));
    FromLeLe(v % (2 * Half(k)), k);
  }

  // -------- Sizes

  /** s_rbModRm: the bytes after the ModR/M byte, and whether there is a SIB byte or a RIP-relative operand. */
  function ModRm(b: Byte): (nat, bool, bool) {
    var mod, rm := b / 0x40, b % 8;
    if mod == 0 then (if rm == 4 then (1, true, false) else if rm == 5 then (4, false, true) else (0, false, false))
    else if mod == 1 then (if rm == 4 then 2 else 1, false, false)
    else if mod == 2 then (if rm == 4 then 5 else 4, false, false)
    else (0, false, false)
  }

  /** What holds of the entries of both tables, and of those that CopyF6, CopyF7, Copy0F00, Copy0F78 and Copy0FB8 choose
      from. */
  predicate EntryFits(e: Entry)
    requires e.Bytes?
  {
    && 1 <= e.fixed && 1 <= e.fixed16
    && (e.modOffset > 0 ==> e.modOffset < e.fixed && e.modOffset < e.fixed16 && e.relOffset == 0)
    && (e.relOffset > 0 ==> (
          && e.relOffset < e.fixed && e.relOffset < e.fixed16 && !e.rax
          && IsFieldSize(e.fixed - e.relOffset) && IsFieldSize(e.fixed16 - e.relOffset)))
  }

  predicate TableFits(b: Byte, e: Entry) {
    && (e.Bytes? ==> EntryFits(e))
    && (e.ByReg? ==> e.chosen.Bytes? && EntryFits(e.chosen) && e.others.Bytes? && EntryFits(e.others))
    && (e.ByOverride? ==>
          e.overridden.Bytes? && EntryFits(e.overridden) && e.plain.Bytes? && EntryFits(e.plain))
    && (e.Jump? ==> b == 0xeb || 0x70 <= b <= 0x7f)
  }

  /** The kinds of entries that CopyBytes handles. */
  const COPY_BYTES: set<Entry> := {
    Bytes(1, 1), Bytes(9, 5, address := true), Bytes(1, 1, dynamic := true),
    Bytes(2, 2), Bytes(2, 2, relOffset := 1, noEnlarge := true), Bytes(2, 2, dynamic := true),
    Bytes(3, 3), Bytes(3, 3, dynamic := true), Bytes(5, 3), Bytes(5, 3, dynamic := true), Bytes(5, 3, rax := true),
    Bytes(5, 5, relOffset := 1), Bytes(4, 4), Bytes(5, 5), Bytes(7, 5, dynamic := true), Bytes(7, 7),
    Bytes(2, 2, modOffset := 1), Bytes(2, 2, modOffset := 1, dynamic := true), Bytes(3, 3, modOffset := 1),
    Bytes(6, 4, modOffset := 1), Bytes(3, 3, modOffset := 2), Bytes(4, 4, modOffset := 2)}

  lemma CopyBytesFit(e: Entry)
    requires e in COPY_BYTES
    ensures e.Bytes? && EntryFits(e)
  {
  }

  /** Tables of the kinds of entries that there are have the shape that copying relies on. */
  lemma EntriesFit(b: Byte, e: Entry)
    requires e.Bytes? ==> e in COPY_BYTES
    requires e.ByReg? ==> e.chosen in COPY_BYTES && e.others in COPY_BYTES
    requires e.ByOverride? ==> e.overridden in COPY_BYTES && e.plain in COPY_BYTES
    requires e.Jump? ==> b == 0xeb || b / 0x10 == 7
    ensures TableFits(b, e)
  {
    hide EntryFits;
    match e {
      case Bytes(_, _, _, _, _, _, _, _) => CopyBytesFit(e);
      case ByReg(_, chosen, others) =>
        CopyBytesFit(chosen);
        CopyBytesFit(others);
      case ByOverride(_, overridden, plain) =>
        CopyBytesFit(overridden);
        CopyBytesFit(plain);
      case _ =>
    }
  }

  ghost predicate TablesFit(t: Tables) {
    forall b: Byte :: TableFits(b, t.main(b)) && TableFits(b, t.extended(b))
  }

  function FixedSize(e: Entry, o: Overrides): nat
    requires e.Bytes?
  {
    if e.address then (if o.address then e.fixed16 else e.fixed)
    else if o.rax then e.fixed + (if e.rax then 4 else 0)
    else if o.operand then e.fixed16 else e.fixed
  }

  predicate HasModRm(e: Entry, body: seq<Byte>)
    requires e.Bytes?
  {
    e.modOffset > 0 ==>
      e.modOffset < |body| && (ModRm(body[e.modOffset]).1 ==> e.modOffset + 1 < |body|)
  }

  /** The length of the instruction without its prefixes. */
  function Size(e: Entry, o: Overrides, body: seq<Byte>): nat
    requires e.Bytes? && HasModRm(e, body)
  {
    var n := FixedSize(e, o);
    if e.modOffset == 0 then n
    else
      var (more, sib, rip) := ModRm(body[e.modOffset]);
      n + more + if sib && body[e.modOffset + 1] % 8 == 5 then 4 else 0
  }

  /** Where the relative operand is, and its length; a length of zero stands for none. */
  function Relative(e: Entry, o: Overrides, body: seq<Byte>): (r: (nat, nat))
    requires e.Bytes? && EntryFits(e) && HasModRm(e, body)
    ensures r.1 == 0 || (IsFieldSize(r.1) && r.0 > 0 && r.0 + r.1 <= Size(e, o, body))
  {
    if e.relOffset > 0 then (e.relOffset, FixedSize(e, o) - e.relOffset)
    else if e.modOffset > 0 && ModRm(body[e.modOffset]).2 then (e.modOffset + 1, 4)
    else (0, 0)
  }

  // -------- What a copy is

  /** The bytes written, the bytes of the source they stand for, the target, and the growth reported. */
  datatype Copy = Copy(bytes: seq<Byte>, used: nat, target: Target, extra: int)

  /** The body copied to an address `shift` further on, with its relative operand moved. */
  function Adjusted(e: Entry, o: Overrides, body: seq<Byte>, from: int, shift: int): (c: Copy)
    requires e.Bytes? && EntryFits(e) && HasModRm(e, body) && Size(e, o, body) <= |body|
    ensures |c.bytes| == c.used == Size(e, o, body)
  {
    var n, r := Size(e, o, body), Relative(e, o, body);
    if r.1 == 0 then Copy(body[..n], n, NoTarget, 0)
    else
      var offset := Signed(body[r.0..r.0 + r.1]);
      Copy(Splice(body[..n], r.0, Field(offset - shift, r.1)), n,
           if e.relOffset == 0 then Null else At(from + n + offset),
           if FitsIn(offset - shift, r.1) then 0 else 4 - r.1)
  }

  /** CopyBytes, for a body at address `from`: the flags of the entry change what is reported. */
  function CopiedBytes(e: Entry, o: Overrides, body: seq<Byte>, from: int, shift: int): (c: Copy)
    requires e.Bytes? && EntryFits(e) && HasModRm(e, body) && Size(e, o, body) <= |body|
    ensures |c.bytes| == c.used == Size(e, o, body)
  {
    var c := Adjusted(e, o, body, from, shift);
    c.(target := if e.dynamic then Dynamic else c.target, extra := if e.noEnlarge then -c.extra else c.extra)
  }

  /** CopyBytesJump: a short jump becomes a near one. */
  function CopiedJump(body: seq<Byte>, from: int, shift: int): Copy
    requires 2 <= |body| && (body[0] == 0xeb || 0x70 <= body[0] <= 0x7f)
  {
    var offset := Signed([body[1]]);
    var target := At(from + 2 + offset);
    if body[0] == 0xeb then Copy([0xe9] + Field(offset - (shift + 3), 4), 2, target, 3)
    else Copy([0x0f, 0x80 + body[0] % 0x10] + Field(offset - (shift + 4), 4), 2, target, 4)
  }

  /** Where CopyFF says that an indirect call or jump leads; None for the other instructions of the group. */
  function IndirectTarget(body: seq<Byte>, from: int, o: Overrides, t: Tables): Option<Target>
    requires 2 <= |body| && (body[1] == 0x15 || body[1] == 0x25 ==> 6 <= |body|)
  {
    if body[1] == 0x15 || body[1] == 0x25 then
      var at := from + 6 + Signed(body[2..6]);
      if o.segment == 0x64 || o.segment == 0x65 then Some(Dynamic)
      else if t.limited && !(t.moduleBegin <= at < t.moduleEnd) then Some(Dynamic)
      else Some(At(t.pointers(at)))
    else if body[1] / 0x10 % 4 == 1 || body[1] / 0x10 % 4 == 2 then Some(Dynamic)
    else None
  }

  /** The entry by which the body of an instruction is measured and copied. */
  function BodyOf(f: Entry): Entry {
    if f.Indirect? then MOD2 else f
  }

  /** The body of an instruction is an opcode that is known, and complete. */
  predicate IsBody(f: Entry, o: Overrides, body: seq<Byte>) {
    if f.Jump? then 2 <= |body| && (body[0] == 0xeb || 0x70 <= body[0] <= 0x7f)
    else
      && (f.Bytes? || f.Indirect?) && EntryFits(BodyOf(f))
      && HasModRm(BodyOf(f), body) && Size(BodyOf(f), o, body) <= |body|
  }

  /** The copy of a body. */
  function CopiedBody(f: Entry, o: Overrides, body: seq<Byte>, t: Tables, from: int, shift: int): Copy
    requires IsBody(f, o, body)
  {
    if f.Jump? then CopiedJump(body, from, shift)
    else
      var c := CopiedBytes(BodyOf(f), o, body, from, shift);
      if f.Indirect? && IndirectTarget(body, from, o, t).Some? then
        c.(target := IndirectTarget(body, from, o, t).value)
      else c
  }

  // -------- Prefixes

  predicate IsPrefix(e: Entry) {
    e.Prefix? || e.Segment? || e.Rax? || e.Operand66? || e.Address67? || e.F2? || e.F3? || e.Escape0F?
    || e.Vex2? || e.Vex3?
  }

  function PrefixLength(e: Entry): nat {
    if e.Vex3? then 3 else if e.Vex2? then 2 else 1
  }

  /** CopyVexCommon: the last byte of a VEX prefix stands for one of the older prefixes. */
  function AfterVex(last: Byte, o: Overrides): Overrides {
    if last % 4 == 1 then o.(operand := true)
    else if last % 4 == 2 then o.(f3 := true)
    else if last % 4 == 3 then o.(f2 := true)
    else o
  }

  /** The overrides after the prefix `b`. */
  function After(e: Entry, b: seq<Byte>, o: Overrides): Overrides
    requires |b| == PrefixLength(e)
  {
    match e
    case Segment => o.(segment := b[0])
    case Rax => o.(rax := o.rax || b[0] / 8 % 2 == 1)
    case Operand66 => o.(operand := true)
    case Address67 => o.(address := true)
    case F2 => o.(f2 := true)
    case F3 => o.(f3 := true)
    case Vex2 => AfterVex(b[1], o)
    case Vex3 => AfterVex(b[2], o.(rax := o.rax || b[2] / 0x80 == 1))
    case _ => o
  }

  /** The entry of the byte `next` that follows the prefix `b`. */
  function NextEntry(e: Entry, b: seq<Byte>, next: Byte, t: Tables): Entry
    requires |b| == PrefixLength(e)
  {
    match e
    case Escape0F => t.extended(next)
    case Vex2 => t.extended(next)
    case Vex3 =>
      if b[1] % 0x20 == 1 then t.extended(next)
      else if b[1] % 0x20 == 2 then MOD2
      else if b[1] % 0x20 == 3 then MOD2_1
      else Invalid
    case _ => t.main(next)
  }

  /** The entry that an opcode with several forms stands for. */
  function Resolved(e: Entry, body: seq<Byte>, o: Overrides): Entry
    requires e.ByReg? ==> 2 <= |body|
  {
    match e
    case ByReg(reg, chosen, others) => if body[1] / 8 % 8 == reg then chosen else others
    case ByOverride(repeat, overridden, plain) =>
      if (if repeat then o.f3 else o.f2 || o.operand) then overridden else plain
    case _ => e
  }

  /** The entry, the overrides and the place of what follows the prefixes; None for an invalid opcode, or if the bytes
      end too early. */
  function Opcode(src: seq<Byte>, at: nat, e: Entry, o: Overrides, t: Tables): (p: Option<(nat, Entry, Overrides)>)
    requires at < |src|
    ensures p.Some? ==> at <= p.value.0 < |src|
    decreases |src| - at
  {
    if IsPrefix(e) then
      var next := at + PrefixLength(e);
      if next < |src| then
        Opcode(src, next, NextEntry(e, src[at..next], src[next], t), After(e, src[at..next], o), t)
      else None
    else if e.Invalid? || (e.ByReg? && at + 1 >= |src|) then None
    else Some((at, Resolved(e, src[at..], o), o))
  }

  /** The opcode is known, and all bytes of the instruction are there. */
  ghost predicate Complete(src: seq<Byte>, at: nat, e: Entry, o: Overrides, t: Tables) {
    && at < |src| && TablesFit(t) && TableFits(src[at], e)
    && var p := Opcode(src, at, e, o, t);
       p.Some? && IsBody(p.value.1, p.value.2, src[p.value.0..])
  }

  /** The copy of the instruction at `at`, with its prefixes; `from` is the address of the source. */
  ghost function Copied(src: seq<Byte>, at: nat, e: Entry, o: Overrides, t: Tables, from: int, shift: int): (c: Copy)
    requires Complete(src, at, e, o, t)
  {
    var (k, f, p) := Opcode(src, at, e, o, t).value;
    var c := CopiedBody(f, p, src[k..], t, from + k, shift);
    c.(bytes := src[at..k] + c.bytes, used := k - at + c.used)
  }

  lemma NextFits(e: Entry, b: seq<Byte>, next: Byte, t: Tables)
    requires |b| == PrefixLength(e) && TablesFit(t)
    ensures TableFits(next, NextEntry(e, b, next, t))
  {
    assert TableFits(next, t.main(next)) && TableFits(next, t.extended(next));
  }

  /** A prefix is copied, and then the rest. */
  lemma CopiedPrefix(src: seq<Byte>, at: nat, e: Entry, o: Overrides, t: Tables, from: int, shift: int)
    requires Complete(src, at, e, o, t) && IsPrefix(e)
    ensures var next := at + PrefixLength(e);
      && next < |src|
      && var f, p := NextEntry(e, src[at..next], src[next], t), After(e, src[at..next], o);
         && Complete(src, next, f, p, t)
         && var c := Copied(src, next, f, p, t, from, shift);
            Copied(src, at, e, o, t, from, shift) == c.(bytes := src[at..next] + c.bytes, used := next - at + c.used)
  {
    hide CopiedBody, IsBody, EntryFits, TableFits;
    var next := at + PrefixLength(e);
    NextFits(e, src[at..next], src[next], t);
    var k := Opcode(src, at, e, o, t).value.0;
    assert src[at..k] == src[at..next] + src[next..k];
  }

  /** Without a prefix the copy is that of the body. */
  lemma CopiedPlain(src: seq<Byte>, at: nat, e: Entry, o: Overrides, t: Tables, from: int, shift: int)
    requires Complete(src, at, e, o, t) && !IsPrefix(e)
    ensures at < |src| && (e.ByReg? ==> at + 1 < |src|)
    ensures var f := Resolved(e, src[at..], o);
      && IsBody(f, o, src[at..])
      && Copied(src, at, e, o, t, from, shift) == CopiedBody(f, o, src[at..], t, from + at, shift)
  {
    hide CopiedBody, IsBody;
    assert src[at..at] == [];
    var c := Copied(src, at, e, o, t, from, shift);
    assert [] + c.bytes == c.bytes;
  }

  // -------- The copy refers to what the original referred to

  /** Only the relative operand changes.  It reaches the old target from the new address exactly when the shifted offset
      fits its field; the growth reported says so for fields of one and two bytes, and never for four. */
  lemma CopiedBytesKeepTarget(e: Entry, o: Overrides, body: seq<Byte>, from: int, shift: int)
    requires e.Bytes? && EntryFits(e) && HasModRm(e, body) && Size(e, o, body) <= |body|
    ensures var c, r := CopiedBytes(e, o, body, from, shift), Relative(e, o, body);
      && |c.bytes| == c.used == Size(e, o, body)
      && (forall k :: 0 <= k < c.used && !(r.0 <= k < r.0 + r.1) ==> c.bytes[k] == body[k])
      && (r.1 != 0 ==>
            var was, now := Signed(body[r.0..r.0 + r.1]), Signed(c.bytes[r.0..r.0 + r.1]);
            && (from + shift + c.used + now == from + c.used + was <==> FitsIn(was - shift, r.1))
            && c.extra == if FitsIn(was - shift, r.1) || r.1 == 4 then 0 else if e.noEnlarge then r.1 - 4 else 4 - r.1)
      && (r.1 == 0 ==> c.extra == 0)
  {
    var c, r := CopiedBytes(e, o, body, from, shift), Relative(e, o, body);
    hide Field, Signed, FitsIn, Splice, Size, Relative, EntryFits, HasModRm;
    if r.1 != 0 {
      var bytes := body[..c.used];
      var was := Signed(body[r.0..r.0 + r.1]);
      SpliceStores(bytes, r.0, Field(was - shift, r.1));
      SignedField(was - shift, r.1);
      assert c.bytes[r.0..r.0 + r.1] == Field(was - shift, r.1);
    }
  }

  /** A jump: its condition if it has one, and its target. */
  datatype JumpTo = JumpTo(condition: Option<nat>, target: int)

  /** A short jump at an address (JMP rel8, Jcc rel8). */
  function ShortJump(b: seq<Byte>, at: int): JumpTo
    requires |b| >= 2
  {
    JumpTo(if b[0] == 0xeb then None else Some(b[0] % 0x10), at + 2 + Signed([b[1]]))
  }

  /** A near jump at an address (JMP rel32, Jcc rel32). */
  function NearJump(b: seq<Byte>, at: int): Option<JumpTo> {
    if |b| == 5 && b[0] == 0xe9 then Some(JumpTo(None, at + 5 + Signed(b[1..])))
    else if |b| == 6 && b[0] == 0x0f && 0x80 <= b[1] <= 0x8f then
      Some(JumpTo(Some(b[1] - 0x80), at + 6 + Signed(b[2..])))
    else None
  }

  /** The copy of a short jump is the near jump of the same condition to the same target, exactly when the target is
      within reach of a near jump, and it is longer by what is reported. */
  lemma CopiedJumpKeepsTarget(body: seq<Byte>, from: int, shift: int)
    requires 2 <= |body| && (body[0] == 0xeb || 0x70 <= body[0] <= 0x7f)
    ensures var c := CopiedJump(body, from, shift);
      && c.used == 2 && |c.bytes| == 2 + c.extra
      && c.target == At(ShortJump(body, from).target)
      && (NearJump(c.bytes, from + shift) == Some(ShortJump(body, from)) <==>
            FitsIn(Signed([body[1]]) - shift - c.extra, 4))
  {
    var c := CopiedJump(body, from, shift);
    var v := Signed([body[1]]) - (shift + c.extra);
    SignedField(v, 4);
    hide Field, Signed;
    if body[0] == 0xeb {
      assert c.bytes[1..] == Field(v, 4);
    } else {
      assert c.bytes[2..] == Field(v, 4);
    }
  }

  // -------- The manual

  /** The bytes of the memory operand behind the ModR/M byte (tables 2-2 and 2-3 of Vol. 2A): there is a SIB byte
      exactly for the fields mod != 3 and rm == 4, a displacement of one byte exactly for mod == 1, and one of four
      bytes exactly for mod == 2, and for mod == 0 with rm == 5, or with a SIB byte whose base is 5. */
  function OperandLength(b: seq<Byte>): nat
    requires b != [] && (b[0] / 0x40 == 0 && b[0] % 8 == 4 ==> |b| >= 2)
  {
    var mod, rm := b[0] / 0x40, b[0] % 8;
    (if mod != 3 && rm == 4 then 1 else 0)
    + (if mod == 1 then 1 else 0)
    + if mod == 2 || (mod == 0 && (rm == 5 || (rm == 4 && b[1] % 8 == 5))) then 4 else 0
  }

  /** The length of a body: that of its memory operand, and a fixed part.  An entry that counts addresses is short under
      67; for the others REX.W goes before 66, and makes those with an immediate of the full width longer by four. */
  predicate HasLength(e: Entry, o: Overrides, body: seq<Byte>, n: nat)
    requires e.Bytes?
  {
    && (e.modOffset > 0 ==>
          && e.modOffset < |body|
          && (body[e.modOffset] / 0x40 == 0 && body[e.modOffset] % 8 == 4 ==> e.modOffset + 1 < |body|))
    && var fixed := n - if e.modOffset > 0 then OperandLength(body[e.modOffset..]) else 0;
       && (e.address && o.address ==> fixed == e.fixed16)
       && (e.address && !o.address ==> fixed == e.fixed)
       && (!e.address && o.rax ==> fixed == e.fixed + if e.rax then 4 else 0)
       && (!e.address && !o.rax && o.operand ==> fixed == e.fixed16)
       && (!e.address && !o.rax && !o.operand ==> fixed == e.fixed)
  }

  /** The relative operand of a body of `n` bytes, from the first place up to the second: the branch displacement, which
      ends the instruction, or the four bytes behind a ModR/M byte with mod == 0 and rm == 5; else an empty range. */
  function RelativeRange(e: Entry, body: seq<Byte>, n: nat): (nat, nat)
    requires e.Bytes? && (e.modOffset > 0 ==> e.modOffset < |body|)
  {
    if e.relOffset > 0 then (e.relOffset, n)
    else if e.modOffset > 0 && body[e.modOffset] / 0x40 == 0 && body[e.modOffset] % 8 == 5 then
      (e.modOffset + 1, e.modOffset + 5)
    else (0, 0)
  }

  /** A signed number that a field of `k` bytes can hold. */
  predicate InReach(v: int, k: nat) {
    && (k == 1 ==> -0x80 <= v < 0x80)
    && (k == 2 ==> -0x8000 <= v < 0x8000)
    && (k == 4 ==> -0x8000_0000 <= v < 0x8000_0000)
  }

  /** The copy `c` of a body at `from` to a place `shift` further on.  It has the length of the manual, and all bytes
      are the same but the relative operand, which counts from the end of the instruction and reaches the old target
      exactly when the shifted offset is in reach; the growth says so for one and two bytes, and never for four. */
  ghost predicate KeepsOperand(e: Entry, o: Overrides, body: seq<Byte>, c: Copy, from: int, shift: int)
    requires e.Bytes?
  {
    && HasLength(e, o, body, c.used) && |c.bytes| == c.used <= |body|
    && var (at, end) := RelativeRange(e, body, c.used);
       && at <= end <= c.used
       && (forall x :: 0 <= x < c.used && !(at <= x < end) ==> c.bytes[x] == body[x])
       && (at == end ==> c.extra == 0)
       && (at < end ==>
             && IsFieldSize(end - at)
             && var was, now := Signed(body[at..end]), Signed(c.bytes[at..end]);
                && (from + shift + c.used + now == from + c.used + was <==> InReach(was - shift, end - at))
                && c.extra == if InReach(was - shift, end - at) || end - at == 4 then 0
                              else if e.noEnlarge then end - at - 4
                              else 4 - (end - at))
  }

  /** The copy `c` at `shift` from the body at `from` refers to what that refers to.  A short jump keeps its condition
      and target exactly when the target is within reach of a near jump. */
  ghost predicate KeepsTarget(f: Entry, o: Overrides, body: seq<Byte>, c: Copy, from: int, shift: int) {
    if f.Jump? then
      && |body| >= 2 && c.used == 2 && |c.bytes| == 2 + c.extra
      && (NearJump(c.bytes, from + shift) == Some(ShortJump(body, from)) <==>
            InReach(Signed([body[1]]) - shift - c.extra, 4))
    else
      && (f.Bytes? || f.Indirect?)
      && KeepsOperand(if f.Indirect? then Bytes(2, 2, modOffset := 1) else f, o, body, c, from, shift)
  }

  /** What the copy `c` of a body at `from` gives as target.  For CALL (register field 2 and 3) and JMP (4 and 5) it is
      what the pointer holds that one through memory refers to, unless that is in another segment, or outside the module
      that references are limited to; all others of these lead where nobody can tell. */
  ghost predicate GivesTarget(f: Entry, o: Overrides, body: seq<Byte>, c: Copy, from: int, t: Tables) {
    match f
    case Jump => 2 <= |body| && c.target == At(ShortJump(body, from).target)
    case Bytes(_, _, modOffset, relOffset, dynamic, _, _, _) =>
      && c.used <= |body| && (modOffset > 0 ==> modOffset < |body|)
      && (relOffset > 0 ==> relOffset <= c.used && IsFieldSize(c.used - relOffset))
      && c.target ==
         if dynamic then Dynamic
         else if relOffset > 0 then At(from + c.used + Signed(body[relOffset..c.used]))
         else if modOffset > 0 && body[modOffset] / 0x40 == 0 && body[modOffset] % 8 == 5 then Null
         else NoTarget
    case Indirect =>
      && 2 <= |body|
      && var mod, reg, rm := body[1] / 0x40, body[1] / 8 % 8, body[1] % 8;
         && (mod == 0 && rm == 5 ==> 6 <= |body|)
         && c.target ==
            if mod == 0 && rm == 5 && (reg == 2 || reg == 4) then
              var pointer := from + 6 + Signed(body[2..6]);
              if o.segment == 0x64 || o.segment == 0x65 then Dynamic
              else if t.limited && !(t.moduleBegin <= pointer < t.moduleEnd) then Dynamic
              else At(t.pointers(pointer))
            else if 2 <= reg <= 5 then Dynamic
            else if mod == 0 && rm == 5 then Null
            else NoTarget
    case _ => false
  }

  /** The bytes of a field, the lowest first, as a signed number. */
  lemma SignedBytes(b: seq<Byte>)
    requires IsFieldSize(|b|)
    ensures |b| == 1 ==> Signed(b) == b[0] as int - if b[0] < 0x80 then 0 else 0x100
    ensures |b| == 2 ==>
              Signed(b) == b[0] as int + 0x100 * (b[1] as int) - if b[1] < 0x80 then 0 else 0x1_0000
    ensures |b| == 4 ==>
              Signed(b) == b[0] as int + 0x100 * (b[1] as int) + 0x1_0000 * (b[2] as int) + 0x100_0000 * (b[3] as int)
                           - if b[3] < 0x80 then 0 else 0x1_0000_0000
  {
    LowestFirst(b);
    if |b| == 1 { FromOneByte(b); }
    hide FromLe;
  }

  lemma FitsInReach(v: int, k: nat)
    requires IsFieldSize(k)
    ensures FitsIn(v, k) <==> InReach(v, k)
  {
  }

  /** s_rbModRm says what the fields of the ModR/M byte say. */
  lemma ModRmIsOperand(b: seq<Byte>)
    requires b != []
    ensures ModRm(b[0]).1 <==> b[0] / 0x40 == 0 && b[0] % 8 == 4
    ensures ModRm(b[0]).2 <==> b[0] / 0x40 == 0 && b[0] % 8 == 5
    ensures ModRm(b[0]).1 ==> !ModRm(b[0]).2
    ensures (ModRm(b[0]).1 ==> |b| >= 2) ==>
              OperandLength(b) == ModRm(b[0]).0 + if ModRm(b[0]).1 && b[1] % 8 == 5 then 4 else 0
    ensures ModRm(b[0]).2 ==> ModRm(b[0]).0 == 4
  {
  }

  /** The length by the entry is the length of the manual, and the relative operand is where the manual has it. */
  lemma SizeIsLength(e: Entry, o: Overrides, body: seq<Byte>)
    requires e.Bytes? && EntryFits(e)
    ensures HasModRm(e, body) <==>
              (e.modOffset > 0 ==>
                 && e.modOffset < |body|
                 && (body[e.modOffset] / 0x40 == 0 && body[e.modOffset] % 8 == 4 ==> e.modOffset + 1 < |body|))
    ensures HasModRm(e, body) ==>
              && HasLength(e, o, body, Size(e, o, body))
              && var (at, k) := Relative(e, o, body);
                 RelativeRange(e, body, Size(e, o, body)) == if k == 0 then (0, 0) else (at, at + k)
  {
    hide ModRm, OperandLength;
    if 0 < e.modOffset < |body| {
      ModRmIsOperand(body[e.modOffset..]);
    }
  }

  lemma CopiedBytesKeepOperand(e: Entry, o: Overrides, body: seq<Byte>, from: int, shift: int)
    requires e.Bytes? && EntryFits(e) && HasModRm(e, body) && Size(e, o, body) <= |body|
    ensures KeepsOperand(e, o, body, CopiedBytes(e, o, body, from, shift), from, shift)
  {
    var c, r := CopiedBytes(e, o, body, from, shift), Relative(e, o, body);
    SizeIsLength(e, o, body);
    CopiedBytesKeepTarget(e, o, body, from, shift);
    if r.1 != 0 {
      FitsInReach(Signed(body[r.0..r.0 + r.1]) - shift, r.1);
    }
    hide HasLength, RelativeRange, Relative, Size, HasModRm, Signed, FitsIn, InReach, CopiedBytes, EntryFits;
  }

  lemma CopiedBodyKeepsTarget(f: Entry, o: Overrides, body: seq<Byte>, t: Tables, from: int, shift: int)
    requires IsBody(f, o, body)
    ensures var c := CopiedBody(f, o, body, t, from, shift);
      c.used == (if f.Jump? then 2 else |c.bytes|) && KeepsTarget(f, o, body, c, from, shift)
  {
    hide CopiedJump, CopiedBytes, NearJump, ShortJump, Signed, FitsIn, InReach, HasLength, RelativeRange;
    hide IndirectTarget;
    if f.Jump? {
      var c := CopiedBody(f, o, body, t, from, shift);
      CopiedJumpKeepsTarget(body, from, shift);
      FitsInReach(Signed([body[1]]) - shift - c.extra, 4);
    } else {
      CopiedBytesKeepOperand(BodyOf(f), o, body, from, shift);
    }
  }

  lemma BytesGiveTarget(e: Entry, o: Overrides, body: seq<Byte>, t: Tables, from: int, shift: int)
    requires e.Bytes? && EntryFits(e) && HasModRm(e, body) && Size(e, o, body) <= |body|
    ensures GivesTarget(e, o, body, CopiedBytes(e, o, body, from, shift), from, t)
  {
    hide Signed, Field, FitsIn, Splice;
  }

  /** The bits that CopyFF looks at are the register field, and with it the fields of an operand in memory. */
  lemma IndirectFields(b: Byte)
    ensures b == 0x15 || b == 0x25 <==> b / 0x40 == 0 && b % 8 == 5 && (b / 8 % 8 == 2 || b / 8 % 8 == 4)
    ensures b / 0x10 % 4 == 1 || b / 0x10 % 4 == 2 <==> 2 <= b / 8 % 8 <= 5
  {
  }

  lemma IndirectRelative(o: Overrides, body: seq<Byte>)
    requires IsBody(Indirect, o, body)
    ensures 2 <= |body| && (body[1] / 0x40 == 0 && body[1] % 8 == 5 ==> 6 <= |body|)
  {
  }

  lemma CopiedBodyGivesTarget(f: Entry, o: Overrides, body: seq<Byte>, t: Tables, from: int, shift: int)
    requires IsBody(f, o, body)
    ensures GivesTarget(f, o, body, CopiedBody(f, o, body, t, from, shift), from, t)
  {
    hide Signed, CopiedBytes, FitsIn, Field, Size, HasModRm, EntryFits;
    if f.Jump? {
    } else {
      if f.Indirect? {
        IndirectRelative(o, body);
        IndirectFields(body[1]);
      }
      BytesGiveTarget(BodyOf(f), o, body, t, from, shift);
    }
  }

  /** What the prefixes mean, one by one: which table the next byte is looked up in, and which overrides hold for it. */
  lemma PrefixMeans(src: seq<Byte>, at: nat, e: Entry, o: Overrides, t: Tables)
    requires at + 1 < |src|
    ensures var next := src[at + 1];
      && (e.Escape0F? ==> Opcode(src, at, e, o, t) == Opcode(src, at + 1, t.extended(next), o, t))
      && (e.Prefix? ==> Opcode(src, at, e, o, t) == Opcode(src, at + 1, t.main(next), o, t))
      && (e.Segment? ==> Opcode(src, at, e, o, t) == Opcode(src, at + 1, t.main(next), o.(segment := src[at]), t))
      && (e.Operand66? ==> Opcode(src, at, e, o, t) == Opcode(src, at + 1, t.main(next), o.(operand := true), t))
      && (e.Address67? ==> Opcode(src, at, e, o, t) == Opcode(src, at + 1, t.main(next), o.(address := true), t))
      && (e.F2? ==> Opcode(src, at, e, o, t) == Opcode(src, at + 1, t.main(next), o.(f2 := true), t))
      && (e.F3? ==> Opcode(src, at, e, o, t) == Opcode(src, at + 1, t.main(next), o.(f3 := true), t))
      && (e.Rax? ==>
            Opcode(src, at, e, o, t)
            == Opcode(src, at + 1, t.main(next), if src[at] / 8 % 2 == 1 then o.(rax := true) else o, t))
  {
  }

  /** What the prefixes of VEX mean: the opcode is looked up in the table of 0F, or has the one form of the maps 0F 38
      and 0F 3A. */
  lemma VexMeans(src: seq<Byte>, at: nat, e: Entry, o: Overrides, t: Tables)
    requires at < |src|
    ensures e.Vex2? && at + 2 < |src| ==>
              var pp := src[at + 1] % 4;
              Opcode(src, at, e, o, t)
              == Opcode(src, at + 2, t.extended(src[at + 2]),
                        if pp == 1 then o.(operand := true) else if pp == 2 then o.(f3 := true)
                        else if pp == 3 then o.(f2 := true) else o, t)
    ensures e.Vex3? && at + 3 < |src| ==>
              var m, pp := src[at + 1] % 0x20, src[at + 2] % 4;
              var p := if src[at + 2] >= 0x80 then o.(rax := true) else o;
              Opcode(src, at, e, o, t)
              == if m == 0 || m > 3 then None
                 else Opcode(src, at + 3,
                             if m == 1 then t.extended(src[at + 3])
                             else if m == 2 then Bytes(2, 2, modOffset := 1) else Bytes(3, 3, modOffset := 1),
                             if pp == 1 then p.(operand := true) else if pp == 2 then p.(f3 := true)
                             else if pp == 3 then p.(f2 := true) else p, t)
    ensures (e.Vex2? && at + 2 >= |src|) || (e.Vex3? && at + 3 >= |src|) ==> Opcode(src, at, e, o, t) == None
  {
  }

  /** Behind the prefixes an opcode stands for itself, or for one of its forms: by the register field of the ModR/M
      byte, or by the overrides. */
  lemma OpcodeMeans(src: seq<Byte>, at: nat, e: Entry, o: Overrides, t: Tables)
    requires at < |src|
    ensures e.Invalid? ==> Opcode(src, at, e, o, t) == None
    ensures e.Bytes? || e.Jump? || e.Indirect? ==> Opcode(src, at, e, o, t) == Some((at, e, o))
    ensures e.ByReg? ==>
              Opcode(src, at, e, o, t)
              == if at + 1 >= |src| then None
                 else Some((at, if src[at + 1] / 8 % 8 == e.reg then e.chosen else e.others, o))
    ensures e.ByOverride? ==>
              Opcode(src, at, e, o, t)
              == Some((at, if (if e.repeat then o.f3 else o.f2 || o.operand) then e.overridden else e.plain, o))
  {
  }

  ghost predicate IsLong(e: Entry, o: Overrides, body: seq<Byte>)
    requires e.Bytes?
  {
    exists n: nat :: n <= |body| && HasLength(e, o, body, n)
  }

  /** Which bodies are complete: those of which all the bytes are there that the manual gives them. */
  lemma BodyIsComplete(f: Entry, o: Overrides, body: seq<Byte>)
    ensures f.Jump? ==> (IsBody(f, o, body) <==> 2 <= |body| && (body[0] == 0xeb || 0x70 <= body[0] <= 0x7f))
    ensures f.Indirect? ==> (IsBody(f, o, body) <==> IsLong(Bytes(2, 2, modOffset := 1), o, body))
    ensures f.Bytes? && EntryFits(f) ==> (IsBody(f, o, body) <==> IsLong(f, o, body))
    ensures !f.Jump? && !f.Bytes? && !f.Indirect? ==> !IsBody(f, o, body)
  {
    if (f.Bytes? && EntryFits(f)) || f.Indirect? {
      SizeIsLength(BodyOf(f), o, body);
      hide Size, HasLength;
    }
  }

  lemma KeptLength(f: Entry, o: Overrides, body: seq<Byte>, c: Copy, from: int, shift: int)
    requires KeepsTarget(f, o, body, c, from, shift)
    ensures |c.bytes| == c.used + if f.Jump? then c.extra else 0
  {
    hide HasLength, RelativeRange, NearJump, ShortJump, InReach, Signed;
  }

  /** The whole instruction, with any chain of prefixes: the `k` bytes of prefixes are copied as they are, the source is
      used up to the end of the body, and what is copied of the body refers to what the body refers to. */
  lemma CopyKeepsTarget(src: seq<Byte>, e: Entry, o: Overrides, t: Tables, from: int, shift: int)
    requires Complete(src, 0, e, o, t)
    ensures var (k, f, p) := Opcode(src, 0, e, o, t).value;
      var c := Copied(src, 0, e, o, t, from, shift);
      && k <= |c.bytes| == c.used + (if f.Jump? then c.extra else 0) && k <= c.used && c.bytes[..k] == src[..k]
      && var body := c.(bytes := c.bytes[k..], used := c.used - k);
         KeepsTarget(f, p, src[k..], body, from + k, shift) && GivesTarget(f, p, src[k..], body, from + k, t)
  {
    hide CopiedBody, IsBody, KeepsTarget, GivesTarget;
    var (k, f, p) := Opcode(src, 0, e, o, t).value;
    var c := CopiedBody(f, p, src[k..], t, from + k, shift);
    CopiedBodyKeepsTarget(f, p, src[k..], t, from + k, shift);
    CopiedBodyGivesTarget(f, p, src[k..], t, from + k, shift);
    KeptLength(f, p, src[k..], c, from + k, shift);
    assert src[0..k] == src[..k];
    assert (src[..k] + c.bytes)[k..] == c.bytes;
  }

  /** The destination holds a copy of the instruction of which the body lies at `k`: its prefixes, and a body that
      refers to what the body refers to. */
  ghost predicate HoldsCopy(dst: seq<Byte>, next: nat, target: Target, extra: int, src: seq<Byte>, k: nat, f: Entry,
                            p: Overrides, t: Tables, from: int, shift: int)
  {
    var n := next - k + if f.Jump? then extra else 0;
    && k <= |src| && k <= next && 0 <= n && k + n <= |dst| && dst[..k] == src[..k]
    && var c := Copy(dst[k..k + n], next - k, target, extra);
       KeepsTarget(f, p, src[k..], c, from + k, shift) && GivesTarget(f, p, src[k..], c, from + k, t)
  }

  lemma SpliceAtStart(was: seq<Byte>, b: seq<Byte>, k: nat)
    requires k <= |b| <= |was|
    ensures Splice(was, 0, b)[..k] == b[..k] && Splice(was, 0, b)[k..|b|] == b[k..]
  {
  }

  lemma CopyIsHeld(src: seq<Byte>, e: Entry, o: Overrides, t: Tables, from: int, shift: int, was: seq<Byte>)
    requires Complete(src, 0, e, o, t) && |Copied(src, 0, e, o, t, from, shift).bytes| <= |was|
    ensures var (k, f, p) := Opcode(src, 0, e, o, t).value;
      var c := Copied(src, 0, e, o, t, from, shift);
      HoldsCopy(Splice(was, 0, c.bytes), c.used, c.target, c.extra, src, k, f, p, t, from, shift)
  {
    hide Copied, CopiedBody, IsBody, KeepsTarget, GivesTarget, Splice;
    CopyKeepsTarget(src, e, o, t, from, shift);
    var (k, f, p) := Opcode(src, 0, e, o, t).value;
    SpliceAtStart(was, Copied(src, 0, e, o, t, from, shift).bytes, k);
  }

  // -------- Bytes in the destination

  lemma FieldInside(was: seq<Byte>, at: nat, body: seq<Byte>, n: nat, f: nat, k: nat)
    requires n <= |body| && at + n <= |was| && f + k <= n
    ensures Splice(was, at, body[..n])[at + f..at + f + k] == body[f..f + k]
  {
  }

  lemma SpliceInside(was: seq<Byte>, at: nat, b: seq<Byte>, f: nat, x: seq<Byte>)
    requires at + |b| <= |was| && f + |x| <= |b|
    ensures Splice(Splice(was, at, b), at + f, x) == Splice(was, at, Splice(b, f, x))
  {
  }

  /** The bytes first, and the operand after them, make the adjusted copy. */
  lemma AdjustedParts(was: seq<Byte>, at: nat, e: Entry, o: Overrides, body: seq<Byte>, from: int, shift: int,
                      f: nat, k: nat)
    requires e.Bytes? && EntryFits(e) && HasModRm(e, body) && Size(e, o, body) <= |body|
    requires at + Size(e, o, body) <= |was| && k != 0 && Relative(e, o, body) == (f, k)
    ensures var n, c := Size(e, o, body), Adjusted(e, o, body, from, shift);
      var copied := Splice(was, at, body[..n]);
      var offset := Signed(copied[at + f..at + f + k]);
      && Splice(was, at, c.bytes) == Splice(copied, at + f, Field(offset - shift, k))
      && c.target == (if e.relOffset == 0 then Null else At(from + n + offset))
      && c.extra == if FitsIn(offset - shift, k) then 0 else 4 - k
  {
    var n := Size(e, o, body);
    FieldInside(was, at, body, n, f, k);
    SpliceInside(was, at, body[..n], f, Field(Signed(body[f..f + k]) - shift, k));
    hide Size, Relative, Splice, Field, Signed, FitsIn, EntryFits, HasModRm;
  }

  // -------- The object

  class CDetourDis {
    const tables: Tables
    var o: Overrides
    var target: Target
    var extra: int

    constructor (tables: Tables)
      ensures this.tables == tables && o == Overrides(false, false, false, false, false, 0)
      ensures target == NoTarget && extra == 0
    {
      this.tables := tables;
      o := Overrides(false, false, false, false, false, 0);
      target, extra := NoTarget, 0;
    }

    /** Moves a relative operand, and gives the address it referred to. */
    method AdjustTarget(dst: array<Byte>, at: nat, src: int, cbOp: nat, cbTargetOffset: nat, cbTargetSize: nat,
                        shift: int)
      returns (t: int)
      requires IsFieldSize(cbTargetSize) && at + cbTargetOffset + cbTargetSize <= dst.Length
      modifies this`extra, dst
      ensures var f := at + cbTargetOffset;
        var offset := Signed(old(dst[..])[f..f + cbTargetSize]);
        && t == src + cbOp + offset
        && dst[..] == Splice(old(dst[..]), f, Field(offset - shift, cbTargetSize))
        && extra == if FitsIn(offset - shift, cbTargetSize) then old(extra) else 4 - cbTargetSize
    {
      var f := at + cbTargetOffset;
      var nOldOffset := Signed(dst[f..f + cbTargetSize]);
      assert dst[f..f + cbTargetSize] == dst[..][f..f + cbTargetSize];
      t := src + cbOp + nOldOffset;
      var nNewOffset := nOldOffset - shift;
      Store(dst, f, Field(nNewOffset, cbTargetSize));
      if !FitsIn(nNewOffset, cbTargetSize) {
        extra := 4 - cbTargetSize;
      }
    }

    /** The relative operand of the copied bytes is moved. */
    method AdjustCopied(e: Entry, body: seq<Byte>, at: nat, from: int, dst: array<Byte>, shift: int,
                        nRelOffset: nat, cbTarget: nat, ghost was: seq<Byte>)
      requires e.Bytes? && EntryFits(e) && HasModRm(e, body) && Size(e, o, body) <= |body|
      requires at + Size(e, o, body) <= |was| && dst[..] == Splice(was, at, body[..Size(e, o, body)])
      requires extra == 0 && cbTarget != 0 && Relative(e, o, body) == (nRelOffset, cbTarget)
      modifies this`target, this`extra, dst
      ensures var c := Adjusted(e, o, body, from, shift);
        && dst[..] == Splice(was, at, c.bytes) && target == c.target && extra == c.extra
    {
      AdjustedParts(was, at, e, o, body, from, shift, nRelOffset, cbTarget);
      hide Adjusted, Size, Relative, Splice, Field, Signed, FitsIn, EntryFits, HasModRm;
      var t := AdjustTarget(dst, at, from, Size(e, o, body), nRelOffset, cbTarget, shift);
      target := if e.relOffset == 0 then Null else At(t);
    }

    /** The first half of CopyBytes: how long the instruction is, and where its relative operand is. */
    method Measure(e: Entry, body: seq<Byte>) returns (nBytes: nat, nRelOffset: nat, cbTarget: int)
      requires e.Bytes? && EntryFits(e) && HasModRm(e, body)
      ensures nBytes == Size(e, o, body)
      ensures var r := Relative(e, o, body);
        nRelOffset == r.0 && (r.1 == 0 <==> r.0 == 0) && (r.1 != 0 ==> cbTarget == r.1)
    {
      var nBytesFixed :=
        if e.address then (if o.address then e.fixed16 else e.fixed)
        else if o.rax then e.fixed + (if e.rax then 4 else 0)
        else if o.operand then e.fixed16 else e.fixed;
      nBytes, nRelOffset, cbTarget := nBytesFixed, e.relOffset, nBytesFixed - e.relOffset;
      if e.modOffset > 0 {
        var (more, sib, rip) := ModRm(body[e.modOffset]);
        nBytes := nBytes + more;
        if sib {
          if body[e.modOffset + 1] % 8 == 5 {
            nBytes := nBytes + 4;
          }
        } else if rip {
          nRelOffset, cbTarget := e.modOffset + 1, 4;
        }
      }
    }

    /** The instruction without prefixes that begins at `body`; `from` is its address. */
    method CopyBytes(e: Entry, body: seq<Byte>, at: nat, from: int, dst: array<Byte>, shift: int) returns (nBytes: nat)
      requires e.Bytes? && EntryFits(e) && HasModRm(e, body) && Size(e, o, body) <= |body|
      requires extra == 0 && target == NoTarget && at + Size(e, o, body) <= dst.Length
      modifies this`target, this`extra, dst
      ensures var c := CopiedBytes(e, o, body, from, shift);
        && dst[..] == Splice(old(dst[..]), at, c.bytes) && nBytes == c.used
        && target == c.target && extra == c.extra
    {
      var nRelOffset, cbTarget;
      nBytes, nRelOffset, cbTarget := Measure(e, body);
      ghost var was := dst[..];
      Store(dst, at, body[..nBytes]);
      if nRelOffset != 0 {
        AdjustCopied(e, body, at, from, dst, shift, nRelOffset, cbTarget, was);
      }
      hide Size, Splice, EntryFits, Relative, Signed, Field, FitsIn;
      if e.noEnlarge {
        extra := -extra;
      }
      if e.dynamic {
        target := Dynamic;
      }
    }

    /** CopyFF: an indirect call or jump has the target that its pointer holds, if that may be read. */
    method CopyFF(body: seq<Byte>, at: nat, from: int, dst: array<Byte>, shift: int) returns (nBytes: nat)
      requires IsBody(Indirect, o, body) && extra == 0 && target == NoTarget && at + Size(MOD2, o, body) <= dst.Length
      modifies this`target, this`extra, dst
      ensures var c := CopiedBody(Indirect, o, body, tables, from, shift);
        && dst[..] == Splice(old(dst[..]), at, c.bytes) && nBytes == c.used
        && target == c.target && extra == c.extra
    {
      nBytes := CopyBytes(MOD2, body, at, from, dst, shift);
      var b1 := body[1];
      if b1 == 0x15 || b1 == 0x25 {
        if o.segment != 0x64 && o.segment != 0x65 {
          var pointer := from + 6 + Signed(body[2..6]);
          if tables.limited && (pointer < tables.moduleBegin || pointer >= tables.moduleEnd) {
            target := Dynamic;
          } else {
            target := At(tables.pointers(pointer));
          }
        } else {
          target := Dynamic;
        }
      } else if b1 / 0x10 % 4 == 1 || b1 / 0x10 % 4 == 2 {
        target := Dynamic;
      }
    }

    method CopyBytesJump(body: seq<Byte>, at: nat, from: int, dst: array<Byte>, shift: int)
      requires 2 <= |body| && (body[0] == 0xeb || 0x70 <= body[0] <= 0x7f)
      requires at + |CopiedJump(body, from, shift).bytes| <= dst.Length
      modifies this`target, this`extra, dst
      ensures var c := CopiedJump(body, from, shift);
        && dst[..] == Splice(old(dst[..]), at, c.bytes) && target == c.target && extra == c.extra
    {
      hide Signed, Field, Splice;
      var nOldOffset := Signed([body[1]]);
      target := At(from + 2 + nOldOffset);
      ghost var was := dst[..];
      if body[0] == 0xeb {
        Store(dst, at, [0xe9]);
        Store(dst, at + 1, Field(nOldOffset - (shift + 3), 4));
        StoredTwice(was, at, [0xe9], Field(nOldOffset - (shift + 3), 4));
        extra := 3;
      } else {
        var opcode := [0x0f, 0x80 + body[0] % 0x10];
        Store(dst, at, opcode);
        Store(dst, at + 2, Field(nOldOffset - (shift + 4), 4));
        StoredTwice(was, at, opcode, Field(nOldOffset - (shift + 4), 4));
        extra := 4;
      }
    }

    method CopyVexCommon(last: Byte)
      modifies this`o
      ensures o == AfterVex(last, old(o))
    {
      if last % 4 == 1 {
        o := o.(operand := true);
      } else if last % 4 == 2 {
        o := o.(f3 := true);
      } else if last % 4 == 3 {
        o := o.(f2 := true);
      }
    }

    /** What the copy function of a prefix notes. */
    method NoteOverride(e: Entry, prefix: seq<Byte>)
      requires |prefix| == PrefixLength(e)
      modifies this`o
      ensures o == After(e, prefix, old(o))
    {
      match e {
        case Segment => o := o.(segment := prefix[0]);
        case Rax => if prefix[0] / 8 % 2 == 1 { o := o.(rax := true); }
        case Operand66 => o := o.(operand := true);
        case Address67 => o := o.(address := true);
        case F2 => o := o.(f2 := true);
        case F3 => o := o.(f3 := true);
        case Vex2 => CopyVexCommon(prefix[1]);
        case Vex3 =>
          if prefix[2] / 0x80 == 1 { o := o.(rax := true); }
          CopyVexCommon(prefix[2]);
        case _ =>
      }
    }

    /** The copy functions of the prefixes: the override is noted, the bytes copied, and the next entry takes over. */
    method CopyBytesPrefix(e: Entry, src: seq<Byte>, at: nat, from: int, dst: array<Byte>, shift: int)
      returns (next: nat)
      requires IsPrefix(e) && Complete(src, at, e, o, tables) && target == NoTarget && extra == 0
      requires at + |Copied(src, at, e, o, tables, from, shift).bytes| <= dst.Length
      modifies this, dst
      ensures var c := old(Copied(src, at, e, o, tables, from, shift));
        && dst[..] == Splice(old(dst[..]), at, c.bytes) && next == at + c.used
        && target == c.target && extra == c.extra
      decreases |src| - at, 0
    {
      CopiedPrefix(src, at, e, o, tables, from, shift);
      hide Copied, Complete, Opcode, Splice, After, NextEntry, PrefixLength, IsPrefix;
      var n := PrefixLength(e);
      var prefix := src[at..at + n];
      NoteOverride(e, prefix);
      ghost var was := dst[..];
      var f := NextEntry(e, prefix, src[at + n], tables);
      ghost var c := Copied(src, at + n, f, o, tables, from, shift);
      Store(dst, at, prefix);
      next := CopyEntry(f, src, at + n, from, dst, shift);
      StoredTwice(was, at, prefix, c.bytes);
    }

    /** The copy function of an entry.  The destination is `shift` away from the source. */
    method CopyEntry(e: Entry, src: seq<Byte>, at: nat, from: int, dst: array<Byte>, shift: int) returns (next: nat)
      requires Complete(src, at, e, o, tables) && target == NoTarget && extra == 0
      requires at + |Copied(src, at, e, o, tables, from, shift).bytes| <= dst.Length
      modifies this, dst
      ensures var c := old(Copied(src, at, e, o, tables, from, shift));
        && dst[..] == Splice(old(dst[..]), at, c.bytes) && next == at + c.used
        && target == c.target && extra == c.extra
      decreases |src| - at, 1
    {
      hide Copied, CopiedBytes, CopiedJump, Splice, Opcode, Complete, Size, HasModRm, EntryFits;
      if IsPrefix(e) {
        next := CopyBytesPrefix(e, src, at, from, dst, shift);
      } else {
        CopiedPlain(src, at, e, o, tables, from, shift);
        var f, n := Resolved(e, src[at..], o), 2;
        CopiedBodyKeepsTarget(f, o, src[at..], tables, from + at, shift);
        if f.Jump? {
          CopyBytesJump(src[at..], at, from + at, dst, shift);
        } else if f.Indirect? {
          n := CopyFF(src[at..], at, from + at, dst, shift);
        } else {
          n := CopyBytes(f, src[at..], at, from + at, dst, shift);
        }
        next := at + n;
      }
    }

    /** CopyInstruction, with a destination: the entry of the first byte decides. */
    method CopyInstruction(src: seq<Byte>, from: int, dst: array<Byte>, shift: int) returns (next: nat)
      requires src != [] && Complete(src, 0, tables.main(src[0]), o, tables) && target == NoTarget && extra == 0
      requires |Copied(src, 0, tables.main(src[0]), o, tables, from, shift).bytes| <= dst.Length
      modifies this, dst
      ensures var c := old(Copied(src, 0, tables.main(src[0]), o, tables, from, shift));
        && dst[..] == Splice(old(dst[..]), 0, c.bytes) && next == c.used && target == c.target && extra == c.extra
      ensures var (k, f, p) := Opcode(src, 0, tables.main(src[0]), old(o), tables).value;
        HoldsCopy(dst[..], next, target, extra, src, k, f, p, tables, from, shift)
    {
      CopyIsHeld(src, tables.main(src[0]), o, tables, from, shift, dst[..]);
      hide Copied, Complete, Splice, Opcode, HoldsCopy;
      next := CopyEntry(tables.main(src[0]), src, 0, from, dst, shift);
    }
  }
}
