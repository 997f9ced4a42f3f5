/** Filling the import tables entry by entry: what a store adds to one table, and what it leaves of the others. */
module ImageEmit {
  import opened ByteBuffer
  import opened ImageImports
  import opened ImageLayout

  /** The tables of the layout lie one behind the other in the buffer, the descriptors last. */
  predicate Room(buf: seq<Byte>, l: Layout, c: Cursor) {
    l.lookup <= c.lookup <= l.lookup + THUNK * l.thunks <= l.bound <= c.bound <= l.bound + THUNK * l.thunks <= l.chars
    && l.chars <= c.chars <= l.chars + l.size <= l.table <= c.table <= |buf|
  }

  predicate InTables(k: nat, c: Cursor, e: Cursor) {
    c.lookup <= k < e.lookup || c.bound <= k < e.bound || c.chars <= k < e.chars || c.table <= k < e.table
  }

  /** Nothing changed but what lies between the cursors. */
  predicate Outside(was: seq<Byte>, now: seq<Byte>, c: Cursor, e: Cursor) {
    |was| == |now| && forall k {:trigger now[k]} :: 0 <= k < |was| && !InTables(k, c, e) ==> now[k] == was[k]
  }

  predicate Upto(c: Cursor, e: Cursor) {
    c.lookup <= e.lookup && c.bound <= e.bound && c.chars <= e.chars && c.table <= e.table
  }

  predicate Zero(buf: seq<Byte>, lo: nat, hi: nat) {
    hi <= |buf| && forall k {:trigger buf[k]} :: lo <= k < hi ==> buf[k] == 0
  }

  lemma ZeroPart(buf: seq<Byte>, lo: nat, hi: nat, mid: nat)
    requires Zero(buf, lo, hi) && mid <= hi
    ensures Zero(buf, lo, mid)
  {
  }

  lemma ZeroAgrees(was: seq<Byte>, buf: seq<Byte>, lo: nat, hi: nat, m: nat)
    requires Zero(was, lo, hi) && Agree(was, buf, 0, m) && hi <= m
    ensures Zero(buf, lo, hi)
  {
  }

  // -------- One file

  function Reached(c: Cursor, t: seq<nat>, b: seq<nat>, s: seq<Byte>): Cursor {
    Cursor(c.lookup + THUNK * |t|, c.bound + THUNK * |b|, c.chars + |s|, c.table)
  }

  /** What is in the tables of one file so far, in a buffer that was `was` before it. */
  predicate Partial(was: seq<Byte>, buf: seq<Byte>, c: Cursor, t: seq<nat>, b: seq<nat>, s: seq<Byte>) {
    |was| == |buf|
    && Holds(buf, c.lookup, Words(t, THUNK)) && Holds(buf, c.bound, Words(b, THUNK)) && Holds(buf, c.chars, s)
    && Outside(was, buf, c, Reached(c, t, b, s))
  }

  lemma {:induction false} WordsAppend(t: seq<nat>, u: seq<nat>, k: nat)
    requires k == 4 || k == 8
    ensures Words(t + u, k) == Words(t, k) + Words(u, k)
  {
    hide Le;
    if t == [] {
      assert t + u == u;
    } else {
      assert (t + u)[1..] == t[1..] + u;
      WordsAppend(t[1..], u, k);
    }
  }

  lemma HoldsBeside(buf: seq<Byte>, at: nat, a: seq<Byte>, x: nat, b: seq<Byte>)
    requires Holds(buf, at, a) && x + |b| <= |buf| && (x + |b| <= at || at + |a| <= x)
    ensures Holds(Splice(buf, x, b), at, a)
  {
    SpliceStores(buf, x, b);
    if at + |a| <= x {
      HoldsSame(buf, Splice(buf, x, b), 0, x, at, a);
    } else {
      HoldsSame(buf, Splice(buf, x, b), x + |b|, |buf|, at, a);
    }
  }

  lemma OutsideSplice(was: seq<Byte>, buf: seq<Byte>, c: Cursor, e: Cursor, e': Cursor, x: nat, b: seq<Byte>)
    requires Outside(was, buf, c, e) && Upto(c, e) && Upto(e, e') && x + |b| <= |buf|
    requires forall k :: x <= k < x + |b| ==> InTables(k, c, e')
    ensures Outside(was, Splice(buf, x, b), c, e')
  {
    SpliceStores(buf, x, b);
    var r := Splice(buf, x, b);
    forall k | 0 <= k < |was| && !InTables(k, c, e')
      ensures r[k] == was[k]
    {
      assert !InTables(k, c, e);
      assert r[k] == buf[k] == was[k];
    }
  }

  lemma WordsOne(n: nat)
    ensures Words([n], THUNK) == Le(n, THUNK)
  {
    assert Words([n], THUNK) == Le(n, THUNK) + Words([], THUNK);
  }

  lemma PutLookup(was: seq<Byte>, buf: seq<Byte>, l: Layout, c: Cursor, t: seq<nat>, b: seq<nat>, s: seq<Byte>, n: nat)
    requires Partial(was, buf, c, t, b, s) && Room(buf, l, Reached(c, t + [n], b, s)) && Room(buf, l, c)
    ensures Partial(was, Splice(buf, c.lookup + THUNK * |t|, Le(n, THUNK)), c, t + [n], b, s)
  {
    hide Holds, Words, Splice, Le;
    WordsAppend(t, [n], THUNK);
    WordsOne(n);
    HoldsAppended(buf, c.lookup, Words(t, THUNK), Le(n, THUNK));
    HoldsBeside(buf, c.bound, Words(b, THUNK), c.lookup + THUNK * |t|, Le(n, THUNK));
    HoldsBeside(buf, c.chars, s, c.lookup + THUNK * |t|, Le(n, THUNK));
    OutsideSplice(was, buf, c, Reached(c, t, b, s), Reached(c, t + [n], b, s), c.lookup + THUNK * |t|, Le(n, THUNK));
  }

  lemma PutBound(was: seq<Byte>, buf: seq<Byte>, l: Layout, c: Cursor, t: seq<nat>, b: seq<nat>, s: seq<Byte>, n: nat)
    requires Partial(was, buf, c, t, b, s) && Room(buf, l, Reached(c, t, b + [n], s)) && Room(buf, l, c)
    ensures Partial(was, Splice(buf, c.bound + THUNK * |b|, Le(n, THUNK)), c, t, b + [n], s)
  {
    hide Holds, Words, Splice, Le;
    WordsAppend(b, [n], THUNK);
    WordsOne(n);
    HoldsAppended(buf, c.bound, Words(b, THUNK), Le(n, THUNK));
    HoldsBeside(buf, c.lookup, Words(t, THUNK), c.bound + THUNK * |b|, Le(n, THUNK));
    HoldsBeside(buf, c.chars, s, c.bound + THUNK * |b|, Le(n, THUNK));
    OutsideSplice(was, buf, c, Reached(c, t, b, s), Reached(c, t, b + [n], s), c.bound + THUNK * |b|, Le(n, THUNK));
  }

  lemma PutChars(was: seq<Byte>, buf: seq<Byte>, l: Layout, c: Cursor, t: seq<nat>, b: seq<nat>, s: seq<Byte>,
                 x: seq<Byte>)
    requires Partial(was, buf, c, t, b, s) && Room(buf, l, Reached(c, t, b, s + x)) && Room(buf, l, c)
    ensures Partial(was, Splice(buf, c.chars + |s|, x), c, t, b, s + x)
  {
    hide Holds, Words, Splice;
    HoldsAppended(buf, c.chars, s, x);
    HoldsBeside(buf, c.lookup, Words(t, THUNK), c.chars + |s|, x);
    HoldsBeside(buf, c.bound, Words(b, THUNK), c.chars + |s|, x);
    OutsideSplice(was, buf, c, Reached(c, t, b, s), Reached(c, t, b, s + x), c.chars + |s|, x);
  }

  /** The descriptor completes the file. */
  lemma PutDescriptor(was: seq<Byte>, buf: seq<Byte>, l: Layout, c: Cursor, f: ImportFile)
    requires FitFile(f) && Partial(was, buf, c, FileThunks(f, l.base + c.chars), BoundThunks(f), FileBytes(f))
    requires Room(buf, l, c) && Room(buf, l, c.After(f))
    ensures var r := Splice(buf, c.table, Words(Descriptor(f, l, c), 4));
      FileWritten(r, f, l, c) && Outside(was, r, c, c.After(f))
  {
    hide Holds, Words, Splice, FileThunks, BoundThunks, FileBytes;
    var d := Words(Descriptor(f, l, c), 4);
    var t, b, s := FileThunks(f, l.base + c.chars), BoundThunks(f), FileBytes(f);
    HoldsBeside(buf, c.lookup, Words(t, THUNK), c.table, d);
    HoldsBeside(buf, c.bound, Words(b, THUNK), c.table, d);
    HoldsBeside(buf, c.chars, s, c.table, d);
    SpliceStores(buf, c.table, d);
    OutsideSplice(was, buf, c, Reached(c, t, b, s), c.After(f), c.table, d);
  }

  /** The rest of the name table is still zero. */
  lemma PartialZero(was: seq<Byte>, buf: seq<Byte>, l: Layout, c: Cursor, t: seq<nat>, b: seq<nat>, s: seq<Byte>)
    requires Partial(was, buf, c, t, b, s) && Room(was, l, c) && Room(was, l, Reached(c, t, b, s))
    requires Zero(was, c.chars, l.chars + l.size)
    ensures Zero(buf, c.chars + |s|, l.chars + l.size)
  {
    hide Holds, Words;
  }

  lemma PartialStart(buf: seq<Byte>, l: Layout, c: Cursor)
    requires Room(buf, l, c)
    ensures Partial(buf, buf, c, [], [], [])
  {
  }

  /** The thunks `t` and the bytes `s` are those of a file up to symbol `n`. */
  predicate PartOf(f: ImportFile, l: Layout, c: Cursor, n: nat, t: seq<nat>, s: seq<Byte>)
    requires FitFile(f)
  {
    !f.byway && n <= |f.names|
    && t + SymbolThunks(f.names[n..], l.base + c.chars + |s|) == FileThunks(f, l.base + c.chars)
    && s + SymbolsBytes(f.names[n..]) == FileBytes(f)
  }

  lemma PartStart(f: ImportFile, l: Layout, c: Cursor)
    requires FitFile(f) && !f.byway
    ensures PartOf(f, l, c, 0, [], Padded(Chars0(f.name.value)))
  {
    hide Chars0, SymbolThunks, SymbolsBytes;
    assert f.names[0..] == f.names;
    assert [] + FileThunks(f, l.base + c.chars) == FileThunks(f, l.base + c.chars);
  }

  /** The thunk of symbol `n`, its name going behind the bytes `s`. */
  function ThunkOf(f: ImportFile, l: Layout, c: Cursor, n: nat, s: seq<Byte>): nat
    requires n < |f.names|
  {
    if f.names[n].name.Some? then l.base + c.chars + |s| else ORDINAL_FLAG + f.names[n].nOrdinal
  }

  lemma PartNext(f: ImportFile, l: Layout, c: Cursor, n: nat, t: seq<nat>, s: seq<Byte>)
    requires FitFile(f) && PartOf(f, l, c, n, t, s) && n < |f.names|
    ensures FitName(f.names[n])
    ensures PartOf(f, l, c, n + 1, t + [ThunkOf(f, l, c, n, s)], s + SymbolBytes(f.names[n]))
    ensures |t| + 2 <= ThunkCount(f) && |s| + |SymbolBytes(f.names[n])| <= FileSize(f)
  {
    hide SymbolBytes, FileThunks, FileBytes;
    var m, rest := f.names[n], f.names[n..];
    assert m in f.names && rest[0] == m && rest[1..] == f.names[n + 1..];
    var x, b := ThunkOf(f, l, c, n, s), SymbolBytes(m);
    var st, sb := SymbolThunks(rest[1..], l.base + c.chars + |s + b|), SymbolsBytes(rest[1..]);
    assert SymbolThunks(rest, l.base + c.chars + |s|) == [x] + st && SymbolsBytes(rest) == b + sb;
    hide SymbolThunks, SymbolsBytes;
    assert t + ([x] + st) == (t + [x]) + st;
    assert s + (b + sb) == (s + b) + sb;
    assert |(t + [x]) + st| == ThunkCount(f) && |(s + b) + sb| == FileSize(f);
  }

  lemma PartNextOrdinal(f: ImportFile, l: Layout, c: Cursor, n: nat, t: seq<nat>, s: seq<Byte>)
    requires FitFile(f) && PartOf(f, l, c, n, t, s) && n < |f.names| && f.names[n].name.None?
    ensures PartOf(f, l, c, n + 1, t + [ORDINAL_FLAG + f.names[n].nOrdinal], s)
    ensures |t| + 2 <= ThunkCount(f) && |s| <= FileSize(f)
  {
    hide PartOf;
    PartNext(f, l, c, n, t, s);
    assert s + SymbolBytes(f.names[n]) == s;
  }

  lemma PartEnd(f: ImportFile, l: Layout, c: Cursor, t: seq<nat>, s: seq<Byte>)
    requires FitFile(f) && PartOf(f, l, c, |f.names|, t, s)
    ensures t + [0] == FileThunks(f, l.base + c.chars) && s == FileBytes(f)
  {
    hide FileThunks, FileBytes;
    assert f.names[|f.names|..] == [];
  }

  /** The first `n` symbols of a file are in the tables, and the rest of the file fits. */
  predicate Emitting(was: seq<Byte>, buf: seq<Byte>, f: ImportFile, l: Layout, c: Cursor, n: nat,
                     t: seq<nat>, s: seq<Byte>)
    requires FitFile(f)
  {
    PartOf(f, l, c, n, t, s) && Partial(was, buf, c, t, [], s)
    && Room(was, l, c) && Room(was, l, c.After(f)) && Zero(was, c.chars, l.chars + l.size)
  }

  /** The name of the file comes first. */
  lemma EmitName(was: seq<Byte>, f: ImportFile, l: Layout, c: Cursor)
    requires FitFile(f) && Room(was, l, c) && Room(was, l, c.After(f)) && Zero(was, c.chars, l.chars + l.size)
    ensures var b := Padded([] + Chars0(f.name.value));
      c.chars + |b| <= l.chars + l.size <= |was| && b == Padded(Chars0(f.name.value))
      && Partial(was, Splice(was, c.chars, b), c, [], [], b)
      && if f.byway then b == FileBytes(f) else Emitting(was, Splice(was, c.chars, b), f, l, c, 0, [], b)
  {
    hide Holds, Words, Chars0, SymbolsBytes, Outside, Splice, Zero;
    assert [] + Chars0(f.name.value) == Chars0(f.name.value);
    var b := Padded(Chars0(f.name.value));
    assert [] + b == b;
    PartialStart(was, l, c);
    PutChars(was, was, l, c, [], [], [], b);
    if f.byway {
      assert b + [] == b;
    } else {
      PartStart(f, l, c);
    }
  }

  /** A byway has two thunks in both tables. */
  lemma EmitBywayThunks(was: seq<Byte>, buf: seq<Byte>, f: ImportFile, l: Layout, c: Cursor)
    requires FitFile(f) && f.byway && Room(was, l, c) && Room(was, l, c.After(f))
    requires Partial(was, buf, c, [], [], FileBytes(f))
    ensures c.lookup + 2 * THUNK <= l.lookup + THUNK * l.thunks <= |buf|
    ensures c.bound + 2 * THUNK <= l.bound + THUNK * l.thunks <= |buf|
    ensures var one, zero := Le(BYWAY[0], THUNK), Le(0, THUNK);
      var buf' := Splice(Splice(buf, c.lookup, one), c.bound, one);
      Partial(was, Splice(Splice(buf', c.lookup + THUNK, zero), c.bound + THUNK, zero), c, BYWAY, BYWAY, FileBytes(f))
  {
    hide Holds, Words, Le, Outside, Splice, FileBytes;
    var s, x := FileBytes(f), BYWAY[0];
    assert [] + [x] == [x] && [x] + [0] == BYWAY;
    PutLookup(was, buf, l, c, [], [], s, x);
    var buf1 := Splice(buf, c.lookup, Le(x, THUNK));
    PutBound(was, buf1, l, c, [x], [], s, x);
    var buf2 := Splice(buf1, c.bound, Le(x, THUNK));
    PutLookup(was, buf2, l, c, [x], [x], s, 0);
    var buf3 := Splice(buf2, c.lookup + THUNK, Le(0, THUNK));
    PutBound(was, buf3, l, c, BYWAY, [x], s, 0);
  }

  lemma EmitNamed(was: seq<Byte>, buf: seq<Byte>, f: ImportFile, l: Layout, c: Cursor, n: nat,
                  t: seq<nat>, s: seq<Byte>)
    requires FitFile(f) && Emitting(was, buf, f, l, c, n, t, s) && n < |f.names| && f.names[n].name.Some?
    ensures FitName(f.names[n]) && Zero(buf, c.chars + |s|, l.chars + l.size)
    ensures c.chars + |s| + |SymbolBytes(f.names[n])| <= l.chars + l.size <= |buf|
    ensures c.lookup + THUNK * |t| + THUNK <= l.lookup + THUNK * l.thunks <= |buf|
    ensures var b, rva := SymbolBytes(f.names[n]), l.base + c.chars + |s|;
      var buf' := Splice(Splice(buf, c.chars + |s|, b), c.lookup + THUNK * |t|, Le(rva, THUNK));
      Emitting(was, buf', f, l, c, n + 1, t + [rva], s + b)
  {
    hide PartOf, Holds, Words, Le, SymbolBytes, Outside, Splice, FileSize, Zero;
    PartNext(f, l, c, n, t, s);
    var rva, b := l.base + c.chars + |s|, SymbolBytes(f.names[n]);
    PartialZero(was, buf, l, c, t, [], s);
    PutChars(was, buf, l, c, t, [], s, b);
    PutLookup(was, Splice(buf, c.chars + |s|, b), l, c, t, [], s + b, rva);
  }

  lemma EmitOrdinal(was: seq<Byte>, buf: seq<Byte>, f: ImportFile, l: Layout, c: Cursor, n: nat,
                    t: seq<nat>, s: seq<Byte>)
    requires FitFile(f) && Emitting(was, buf, f, l, c, n, t, s) && n < |f.names| && f.names[n].name.None?
    ensures c.lookup + THUNK * |t| + THUNK <= l.lookup + THUNK * l.thunks <= |buf|
    ensures var x := ORDINAL_FLAG + f.names[n].nOrdinal;
      Emitting(was, Splice(buf, c.lookup + THUNK * |t|, Le(x, THUNK)), f, l, c, n + 1, t + [x], s)
  {
    hide PartOf, Holds, Words, Le, Outside, Splice, FileSize, Zero;
    PartNextOrdinal(f, l, c, n, t, s);
    PutLookup(was, buf, l, c, t, [], s, ORDINAL_FLAG + f.names[n].nOrdinal);
  }

  lemma EmitEnd(was: seq<Byte>, buf: seq<Byte>, f: ImportFile, l: Layout, c: Cursor, t: seq<nat>, s: seq<Byte>)
    requires FitFile(f) && Emitting(was, buf, f, l, c, |f.names|, t, s)
    ensures c.lookup + THUNK * |t| + THUNK <= l.lookup + THUNK * l.thunks <= |buf|
    ensures t + [0] == FileThunks(f, l.base + c.chars) && s == FileBytes(f)
    ensures Partial(was, Splice(buf, c.lookup + THUNK * |t|, Le(0, THUNK)), c, t + [0], [], s)
  {
    hide PartOf, Holds, Words, Le, FileBytes, FileThunks, Outside, Splice, FileSize, Zero;
    PartEnd(f, l, c, t, s);
    assert |t + [0]| == ThunkCount(f);
    PutLookup(was, buf, l, c, t, [], s, 0);
  }

  // -------- All files

  function End(files: seq<ImportFile>, c: Cursor): Cursor
    requires Fit(files)
  {
    if files == [] then c else assert files[0] in files; End(files[1..], c.After(files[0]))
  }

  /** The files are in the buffer; the empty descriptor may be missing. */
  predicate Filled(buf: seq<Byte>, files: seq<ImportFile>, l: Layout, c: Cursor)
    requires Fit(files)
  {
    files == [] || (FileWritten(buf, files[0], l, c) && Filled(buf, files[1..], l, c.After(files[0])))
  }

  lemma {:induction false} EndIsBehind(files: seq<ImportFile>, c: Cursor)
    requires Fit(files)
    ensures Upto(c, End(files, c))
    ensures End(files, c).lookup == c.lookup + THUNK * Thunks(files)
    ensures End(files, c).bound <= c.bound + THUNK * Thunks(files)
    ensures Named(files) && End(files, c).chars == c.chars + Chars(files)
    ensures End(files, c).table == c.table + DESCRIPTOR * |files|
  {
    if files != [] {
      assert files[0] in files;
      EndIsBehind(files[1..], c.After(files[0]));
    }
  }

  lemma {:induction false} FilledAppend(buf: seq<Byte>, files: seq<ImportFile>, f: ImportFile, l: Layout, c: Cursor)
    requires Fit(files) && FitFile(f)
    requires Filled(buf, files, l, c) && FileWritten(buf, f, l, End(files, c))
    ensures Fit(files + [f]) && Filled(buf, files + [f], l, c)
  {
    hide FileWritten;
    if files == [] {
      assert files + [f] == [f];
    } else {
      assert files[0] in files && (files + [f])[1..] == files[1..] + [f];
      FilledAppend(buf, files[1..], f, l, c.After(files[0]));
    }
  }

  lemma OutsideAgrees(was: seq<Byte>, buf: seq<Byte>, l: Layout, c: Cursor, a: Cursor, m: Cursor, e: Cursor)
    requires Outside(was, buf, m, e) && Upto(c, a) && Upto(a, m)
    requires Room(was, l, c) && Room(was, l, m) && Room(was, l, e)
    ensures Agree(was, buf, c.lookup, a.lookup) && Agree(was, buf, c.bound, a.bound)
    ensures Agree(was, buf, c.chars, a.chars) && Agree(was, buf, c.table, a.table)
  {
  }

  /** A file stays written as long as nothing changes but what is behind it. */
  lemma FileWrittenKept(was: seq<Byte>, buf: seq<Byte>, f: ImportFile, l: Layout, c: Cursor, m: Cursor, e: Cursor)
    requires FitFile(f) && FileWritten(was, f, l, c)
    requires Outside(was, buf, m, e) && Upto(c.After(f), m) && Room(was, l, c) && Room(was, l, m) && Room(was, l, e)
    ensures FileWritten(buf, f, l, c)
  {
    hide Holds, Words, FileThunks, FileBytes, Agree, Outside, Room, Descriptor, FileSize;
    var a := c.After(f);
    OutsideAgrees(was, buf, l, c, a, m, e);
    HoldsSame(was, buf, c.lookup, a.lookup, c.lookup, Words(FileThunks(f, l.base + c.chars), THUNK));
    HoldsSame(was, buf, c.bound, a.bound, c.bound, Words(BoundThunks(f), THUNK));
    HoldsSame(was, buf, c.chars, a.chars, c.chars, FileBytes(f));
    HoldsSame(was, buf, c.table, a.table, c.table, Words(Descriptor(f, l, c), 4));
  }

  lemma {:induction false} FilledKept(was: seq<Byte>, buf: seq<Byte>, files: seq<ImportFile>, l: Layout, c: Cursor,
                                      m: Cursor, e: Cursor)
    requires Fit(files) && Filled(was, files, l, c)
    requires Outside(was, buf, m, e) && Upto(End(files, c), m) && Room(was, l, c) && Room(was, l, m) && Room(was, l, e)
    ensures Filled(buf, files, l, c)
  {
    hide FileWritten, Outside;
    if files != [] {
      assert files[0] in files;
      EndIsBehind(files[1..], c.After(files[0]));
      FileWrittenKept(was, buf, files[0], l, c, m, e);
      FilledKept(was, buf, files[1..], l, c.After(files[0]), m, e);
    }
  }

  lemma {:induction false} FilledIsWritten(buf: seq<Byte>, files: seq<ImportFile>, l: Layout, c: Cursor)
    requires Fit(files) && Filled(buf, files, l, c) && Holds(buf, End(files, c).table, Words(LAST, 4))
    ensures Written(buf, files, l, c)
  {
    hide FileWritten, Holds, Words;
    if files != [] {
      assert files[0] in files;
      FilledIsWritten(buf, files[1..], l, c.After(files[0]));
    }
  }

  lemma ZeroKept(was: seq<Byte>, buf: seq<Byte>, l: Layout, c: Cursor, e: Cursor, hi: nat)
    requires Outside(was, buf, c, e) && Upto(c, e) && Room(was, l, c) && Room(was, l, e)
    requires Zero(was, c.chars, l.chars + l.size) && Zero(was, c.table, hi)
    ensures Zero(buf, e.chars, l.chars + l.size) && Zero(buf, e.table, hi)
  {
  }

  /** The tables are as large as the list asks for. */
  predicate Sized(files: seq<ImportFile>, l: Layout, length: nat)
    requires Named(files)
  {
    l.thunks == Thunks(files) && l.size == Chars(files)
    && l.lookup + THUNK * l.thunks <= l.bound && l.bound + THUNK * l.thunks <= l.chars && l.chars + l.size <= l.table
    && l.table + DESCRIPTOR * (|files| + 1) <= length
  }

  function Start(l: Layout): Cursor {
    Cursor(l.lookup, l.bound, l.chars, l.table)
  }

  lemma {:induction false} PrefixIsSmaller(files: seq<ImportFile>, i: nat)
    requires Named(files) && i <= |files|
    ensures Named(files[..i]) && Thunks(files[..i]) <= Thunks(files) && Chars(files[..i]) <= Chars(files)
  {
    if i > 0 {
      assert files[..i][1..] == files[1..][..i - 1] && files[..i][0] == files[0];
      PrefixIsSmaller(files[1..], i - 1);
    }
  }

  lemma FitPrefix(files: seq<ImportFile>, i: nat)
    requires Fit(files) && i <= |files|
    ensures Fit(files[..i]) && Named(files[..i])
  {
    assert forall f <- files[..i] :: f in files;
  }

  lemma {:induction false} EndAppend(files: seq<ImportFile>, f: ImportFile, c: Cursor)
    requires Fit(files) && FitFile(f)
    ensures Fit(files + [f]) && End(files + [f], c) == End(files, c).After(f)
  {
    if files == [] {
      assert files + [f] == [f];
    } else {
      assert files[0] in files && (files + [f])[1..] == files[1..] + [f];
      EndAppend(files[1..], f, c.After(files[0]));
    }
  }

  /** In tables of that size every prefix of the list has its place. */
  lemma PrefixFits(buf: seq<Byte>, files: seq<ImportFile>, l: Layout, i: nat)
    requires Fit(files) && Named(files) && Sized(files, l, |buf|) && i <= |files|
    ensures Fit(files[..i]) && Room(buf, l, End(files[..i], Start(l))) && Upto(Start(l), End(files[..i], Start(l)))
    ensures i < |files| ==>
      Fit(files[..i + 1]) && FitFile(files[i]) && files[..i + 1] == files[..i] + [files[i]]
      && End(files[..i + 1], Start(l)) == End(files[..i], Start(l)).After(files[i])
  {
    FitPrefix(files, i);
    PrefixIsSmaller(files, i);
    EndIsBehind(files[..i], Start(l));
    if i < |files| {
      FitPrefix(files, i + 1);
      assert files[i] in files && files[..i + 1] == files[..i] + [files[i]];
      EndAppend(files[..i], files[i], Start(l));
    }
  }

  /** One more file is in the tables, and the rest is still zero. */
  lemma FilledNext(was: seq<Byte>, buf: seq<Byte>, files: seq<ImportFile>, l: Layout, i: nat, hi: nat)
    requires |was| == |buf| && Fit(files) && Named(files) && Sized(files, l, |buf|) && i < |files|
    requires Fit(files[..i]) && Filled(was, files[..i], l, Start(l))
    requires var c := End(files[..i], Start(l));
      FitFile(files[i]) && FileWritten(buf, files[i], l, c) && Outside(was, buf, c, c.After(files[i]))
      && Zero(was, c.chars, l.chars + l.size) && Zero(was, c.table, hi)
    ensures Fit(files[..i + 1]) && Filled(buf, files[..i + 1], l, Start(l))
    ensures var e := End(files[..i + 1], Start(l));
      Zero(buf, e.chars, l.chars + l.size) && Zero(buf, e.table, hi)
  {
    hide Filled, FileWritten, Outside, Zero, Sized, Room;
    var s := Start(l);
    var c := End(files[..i], s);
    PrefixFits(was, files, l, 0);
    PrefixFits(was, files, l, i);
    PrefixFits(was, files, l, i + 1);
    assert files[..0] == [];
    FilledKept(was, buf, files[..i], l, s, c, c.After(files[i]));
    FilledAppend(buf, files[..i], files[i], l, s);
    ZeroKept(was, buf, l, c, c.After(files[i]), hi);
  }

  lemma FilledNothing(buf: seq<Byte>, files: seq<ImportFile>, l: Layout)
    ensures Fit(files[..0]) && Filled(buf, files[..0], l, Start(l)) && End(files[..0], Start(l)) == Start(l)
  {
  }

  lemma {:induction false} LeZero(k: nat)
    ensures forall j :: 0 <= j < k ==> Le(0, k)[j] == 0
  {
    if k > 0 {
      LeZero(k - 1);
    }
  }

  lemma {:induction false} WordsZero(t: seq<nat>)
    requires forall k :: 0 <= k < |t| ==> t[k] == 0
    ensures forall j :: 0 <= j < 4 * |t| ==> Words(t, 4)[j] == 0
  {
    hide Le;
    if t != [] {
      LeZero(4);
      WordsZero(t[1..]);
    }
  }

  /** Zeros are the last descriptor. */
  lemma ZeroIsLast(buf: seq<Byte>, at: nat)
    requires Zero(buf, at, at + DESCRIPTOR)
    ensures Holds(buf, at, Words(LAST, 4))
  {
    WordsZero(LAST);
    HoldsAt(buf, at, Words(LAST, 4));
  }

  /** All files are in the tables, and zeros follow the last descriptor. */
  lemma FilledAll(buf: seq<Byte>, files: seq<ImportFile>, l: Layout, hi: nat)
    requires Fit(files) && Filled(buf, files, l, Start(l))
    requires Zero(buf, End(files, Start(l)).table, hi) && l.table + DESCRIPTOR * (|files| + 1) <= hi
    ensures Written(buf, files, l, Start(l))
  {
    hide Filled, Zero;
    EndIsBehind(files, Start(l));
    var last := End(files, Start(l)).table;
    ZeroPart(buf, last, hi, last + DESCRIPTOR);
    ZeroIsLast(buf, last);
    FilledIsWritten(buf, files, l, Start(l));
  }
}
