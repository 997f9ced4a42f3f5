/** CImage: editing the imports, and writing them to the output section (detours/image.cpp). */
module DetourImage {
  import Bits
  import opened ByteBuffer
  import opened ImageEdits
  import opened ImageEmit
  import opened ImageImports
  import opened ImageLayout
  import opened ImageRead
  import opened Wrappers

  lemma Multiples(k: nat, size: nat)
    requires size > 0
    ensures (k * size) % size == 0
  {
    var q, r := (k * size) / size, (k * size) % size;
    assert size * (k - q) == r;
    Bits.ProductGap(size, k - q);
  }

  /** Align, which rounds up; its mask needs a power of two for that. */
  function Align(a: nat, size: nat): (r: nat)
    requires size > 0
    ensures a <= r < a + size && r % size == 0
  {
    var n := a + size - 1;
    assert n - n % size == n / size * size;
    Multiples(n / size, size);
    n - n % size
  }

  const SECTION_HEADER: nat := 64

  class CImageThunks {
    const buffer: array<Byte>
    const max: nat
    var at: nat
    var count: nat
    var virtAddr: nat

    /** Where the entries may go. */
    predicate Valid()
      reads this
    {
      count <= max && at + THUNK * (max - count) <= buffer.Length
    }

    constructor (buffer: array<Byte>, at: nat, max: nat, virtAddr: nat)
      requires at + THUNK * max <= buffer.Length
      ensures Valid() && this.buffer == buffer && this.max == max
      ensures this.at == at && count == 0 && this.virtAddr == virtAddr
    {
      this.buffer, this.max, this.at, this.count, this.virtAddr := buffer, max, at, 0, virtAddr;
    }

    /** The address of the next entry, unless there is room for one entry only. */
    function Current(): nat
      reads this
    {
      if max > 1 then virtAddr else 0
    }

    method Allocate(data: nat) returns (address: nat)
      requires Valid()
      modifies this, buffer
      ensures Valid()
      ensures if old(count) < max then
                address == old(virtAddr) && count == old(count) + 1 && at == old(at) + THUNK
                && virtAddr == old(virtAddr) + THUNK && buffer[..] == Splice(old(buffer[..]), old(at), Le(data, THUNK))
              else
                address == 0 && count == old(count) && at == old(at) && virtAddr == old(virtAddr)
                && buffer[..] == old(buffer[..])
    {
      if count < max {
        address := virtAddr;
        Store(buffer, at, Le(data, THUNK));
        count, at, virtAddr := count + 1, at + THUNK, virtAddr + THUNK;
      } else {
        address := 0;
      }
    }
  }

  lemma PaddingIsThere(buf: seq<Byte>, at: nat, b: seq<Byte>)
    requires Zero(buf, at, at + |Padded(b)|)
    ensures Splice(buf, at, b) == Splice(buf, at, Padded(b))
  {
    assert |b| % 2 == 1 ==> buf[at + |b|] == 0;
  }

  class CImageChars {
    const buffer: array<Byte>
    const max: nat
    var at: nat
    var count: nat
    var virtAddr: nat

    predicate Valid()
      reads this
    {
      count <= max && at + (max - count) <= buffer.Length
    }

    constructor (buffer: array<Byte>, at: nat, max: nat, virtAddr: nat)
      requires at + max <= buffer.Length
      ensures Valid() && this.buffer == buffer && this.max == max
      ensures this.at == at && count == 0 && this.virtAddr == virtAddr
    {
      this.buffer, this.max, this.at, this.count, this.virtAddr := buffer, max, at, 0, virtAddr;
    }

    /** Both Allocate methods: `head` is empty or the two bytes of a hint.  The padding byte is not written; it is zero
        already, as the whole buffer was. */
    method Allocate(name: string, head: seq<Byte>) returns (address: nat)
      requires Valid() && Text(name) && Zero(buffer[..], at, at + (max - count))
      modifies this, buffer
      ensures Valid()
      ensures var b, n := Padded(head + Chars0(name)), |head| + |name| + 1;
        if old(count) + n + n % 2 <= max then
          |b| == n + n % 2 && address == old(virtAddr) && count == old(count) + |b| && at == old(at) + |b|
          && virtAddr == old(virtAddr) + |b| && buffer[..] == Splice(old(buffer[..]), old(at), b)
        else
          address == 0 && count == old(count) && at == old(at) && virtAddr == old(virtAddr)
          && buffer[..] == old(buffer[..])
    {
      var len := |head| + |name| + 1;
      len := len + len % 2;
      if count + len > max {
        address := 0;
      } else {
        address := virtAddr;
        Store(buffer, at, head + Chars0(name));
        PaddingIsThere(old(buffer[..]), at, head + Chars0(name));
        at, count, virtAddr := at + len, count + len, virtAddr + len;
      }
    }
  }

  /** The three tables stand at the cursor. */
  predicate StandAt(lookup: CImageThunks, bound: CImageThunks, names: CImageChars, l: Layout, c: Cursor)
    reads lookup, bound, names
  {
    lookup != bound && lookup.buffer == bound.buffer == names.buffer
    && lookup.Valid() && lookup.max == l.thunks && lookup.at == c.lookup == l.lookup + THUNK * lookup.count
    && bound.Valid() && bound.max == l.thunks && bound.at == c.bound == l.bound + THUNK * bound.count
    && names.Valid() && names.max == l.size && names.at == c.chars == l.chars + names.count
    && lookup.virtAddr == l.base + c.lookup && bound.virtAddr == l.base + c.bound && names.virtAddr == l.base + c.chars
  }

  /** The names of the symbols of a file, and their thunks. */
  method EmitSymbols(f: ImportFile, lookup: CImageThunks, bound: CImageThunks, names: CImageChars,
                     ghost was: seq<Byte>, ghost l: Layout, ghost c: Cursor)
    requires FitFile(f) && Emitting(was, names.buffer[..], f, l, c, 0, [], Padded(Chars0(f.name.value)))
    requires StandAt(lookup, bound, names, l, Reached(c, [], [], Padded(Chars0(f.name.value))))
    modifies lookup, names, names.buffer
    ensures Partial(was, names.buffer[..], c, FileThunks(f, l.base + c.chars), [], FileBytes(f))
    ensures StandAt(lookup, bound, names, l, Reached(c, FileThunks(f, l.base + c.chars), [], FileBytes(f)))
  {
    hide Emitting, Partial, Splice, Le, FileThunks, FileBytes, Padded, Chars0, Zero, Text;
    ghost var t: seq<nat>, s := [], Padded(Chars0(f.name.value));
    var n := 0;
    while n < |f.names|
      invariant n <= |f.names|
      invariant Emitting(was, names.buffer[..], f, l, c, n, t, s)
      invariant StandAt(lookup, bound, names, l, Reached(c, t, [], s))
    {
      if f.names[n].name.Some? {
        EmitNamed(was, names.buffer[..], f, l, c, n, t, s);
        var rva := names.Allocate(f.names[n].name.value, Le(f.names[n].hint, 2));
        var ignored := lookup.Allocate(rva);
        t, s := t + [rva], s + SymbolBytes(f.names[n]);
      } else {
        EmitOrdinal(was, names.buffer[..], f, l, c, n, t, s);
        var ignored := lookup.Allocate(ORDINAL_FLAG + f.names[n].nOrdinal);
        t := t + [ORDINAL_FLAG + f.names[n].nOrdinal];
      }
      n := n + 1;
    }
    EmitEnd(was, names.buffer[..], f, l, c, t, s);
    var ignored := lookup.Allocate(0);
  }

  /** The thunks of a byway, in both tables. */
  method EmitByway(f: ImportFile, lookup: CImageThunks, bound: CImageThunks, names: CImageChars,
                   ghost was: seq<Byte>, ghost l: Layout, ghost c: Cursor)
    returns (lookupRva: nat, firstThunk: nat)
    requires FitFile(f) && f.byway && Room(was, l, c) && Room(was, l, c.After(f))
    requires Partial(was, names.buffer[..], c, [], [], FileBytes(f))
    requires StandAt(lookup, bound, names, l, Reached(c, [], [], FileBytes(f)))
    modifies lookup, bound, names.buffer
    ensures lookupRva == l.base + c.lookup && firstThunk == l.base + c.bound
    ensures Partial(was, names.buffer[..], c, BYWAY, BYWAY, FileBytes(f))
    ensures StandAt(lookup, bound, names, l, Reached(c, BYWAY, BYWAY, FileBytes(f)))
  {
    hide Partial, Splice, Le, FileBytes;
    EmitBywayThunks(was, names.buffer[..], f, l, c);
    lookupRva := lookup.Allocate(ORDINAL_FLAG + 1);
    firstThunk := bound.Allocate(ORDINAL_FLAG + 1);
    var ignored := lookup.Allocate(0);
    ignored := bound.Allocate(0);
  }

  /** One turn of the loop over the files; the fields of the descriptor are stored together. */
  method EmitFile(f: ImportFile, lookup: CImageThunks, bound: CImageThunks, names: CImageChars, table: nat,
                  ghost l: Layout, ghost c: Cursor)
    requires FitFile(f) && table == c.table && StandAt(lookup, bound, names, l, c)
    requires Room(names.buffer[..], l, c) && Room(names.buffer[..], l, c.After(f))
    requires Zero(names.buffer[..], c.chars, l.chars + l.size)
    modifies lookup, bound, names, names.buffer
    ensures FileWritten(names.buffer[..], f, l, c)
    ensures Outside(old(names.buffer[..]), names.buffer[..], c, c.After(f))
    ensures StandAt(lookup, bound, names, l, c.After(f))
  {
    hide Partial, Splice, Le, Chars0, FileWritten, Outside;
    ghost var was := names.buffer[..];
    EmitName(was, f, l, c);
    var nameRva := names.Allocate(f.name.value, []);
    var lookupRva, firstThunk;
    if f.byway {
      lookupRva, firstThunk := EmitByway(f, lookup, bound, names, was, l, c);
    } else {
      firstThunk, lookupRva := f.rvaFirstThunk, lookup.Current();
      EmitSymbols(f, lookup, bound, names, was, l, c);
    }
    ghost var buf := names.buffer[..];
    Store(names.buffer, table, Words([lookupRva, 0, f.forwarderChain, nameRva, firstThunk], 4));
    PutDescriptor(was, buf, l, c, f);
  }

  /** The part of CheckImportsNeeded for the symbols of one file.  Rounding the running sum up is rounding up each name,
      as the sum is even. */
  method CheckNames(names: seq<ImportName>, chars: nat) returns (changed: bool, size: nat)
    requires chars % 2 == 0
    ensures changed == NamesNeeded(names) && size == chars + SymbolsSize(names) && size % 2 == 0
  {
    changed, size := false, chars;
    var n := 0;
    while n < |names|
      invariant n <= |names| && size % 2 == 0
      invariant NamesNeeded(names) <==> changed || NamesNeeded(names[n..])
      invariant size + SymbolsSize(names[n..]) == chars + SymbolsSize(names)
    {
      NamesNeededCons(names[n..]);
      assert names[n..][1..] == names[n + 1..];
      changed := changed || names[n].name != names[n].orig;
      if names[n].name.Some? {
        size := size + 2;
        size := size + |names[n].name.value| + 1;
        size := size + size % 2;
      }
      n := n + 1;
    }
  }

  /** The section the import tables go to: a header, the old start of the file, the tables, the payloads in between. */
  function LayoutOf(base: nat, cbPrePE: nat, cbData: nat, files: seq<ImportFile>): Layout
    requires Named(files)
  {
    var thunks, size := Thunks(files), Chars(files);
    var lookup := SECTION_HEADER + cbPrePE;
    var bound := lookup + THUNK * thunks;
    var chars := bound + THUNK * thunks;
    Layout(base, thunks, size, lookup, bound, chars, chars + QuadAlign(size) + QuadAlign(cbData))
  }

  /** What Write asks SizeOutputBuffer for. */
  function OutputSize(cbPrePE: nat, cbData: nat, thunks: nat, chars: nat, tables: nat): nat {
    QuadAlign(SECTION_HEADER) + cbPrePE + QuadAlign(cbData) + QuadAlign(THUNK * thunks) + QuadAlign(THUNK * thunks)
    + QuadAlign(chars) + QuadAlign(DESCRIPTOR * tables)
  }

  /** An image with the section in it, and with the originals of the list at `o`. */
  predicate Shows(img: Image, files: seq<ImportFile>, base: nat, section: seq<Byte>, o: nat, end: nat) {
    Installed(img, base, section) && Ranges(files, base, section, end) && OriginalsAt(img, o, Originals(files))
  }

  lemma EightsAlign(n: nat)
    ensures QuadAlign(8 * n) == 8 * n
  {
  }

  /** The sizes in numbers. */
  lemma SizesAdd(cbPrePE: nat, cbData: nat, files: seq<ImportFile>)
    requires Named(files)
    ensures LayoutOf(0, cbPrePE, cbData, files).table
         == 64 + cbPrePE + 16 * Thunks(files) + QuadAlign(Chars(files)) + QuadAlign(cbData)
    ensures OutputSize(cbPrePE, cbData, Thunks(files), Chars(files), |files| + 1)
         == LayoutOf(0, cbPrePE, cbData, files).table + QuadAlign(20 * (|files| + 1))
  {
    hide QuadAlign, Thunks, Chars, Named;
    EightsAlign(8);
    EightsAlign(Thunks(files));
  }

  lemma PlacesFit(cbPrePE: nat, cbData: nat, l: Layout, files: seq<ImportFile>)
    requires cbPrePE % 8 == 0
    requires Named(files) && l == LayoutOf(l.base, cbPrePE, cbData, files)
    ensures QuadAlign(SECTION_HEADER) == SECTION_HEADER && QuadAlign(cbPrePE) == cbPrePE
    ensures QuadAlign(THUNK * l.thunks) == THUNK * l.thunks && QuadAlign(l.size) >= l.size
    ensures QuadAlign(DESCRIPTOR * (|files| + 1)) >= DESCRIPTOR * (|files| + 1)
  {
  }

  /** CImage, as far as imports go. */
  class CImage {
    var files: seq<ImportFile>
    var nImportFiles: nat
    var cbPrePE: nat
    var cbData: nat
    var fileAlignment: nat
    var outputVirtAddr: nat
    var outputVirtSize: nat
    var output: array<Byte>

    predicate Valid()
      reads this
    {
      nImportFiles == |files| && cbPrePE % 8 == 0 && fileAlignment > 0
    }

    // -------- Editing

    method NewByway(name: string) returns (r: Option<ImportFile>)
      modifies this`nImportFiles
      ensures if |name| < 8192 then
                r == Some(ImportFile(true, [], 0, 0, None, Some(name))) && nImportFiles == old(nImportFiles) + 1
              else
                r == None && nImportFiles == old(nImportFiles)
    {
      var copy := Duplicate(name);
      if copy.None? {
        return None;
      }
      nImportFiles := nImportFiles + 1;
      return Some(ImportFile(true, [], 0, 0, None, copy));
    }

    /** The symbols of a file. */
    method EditSymbols(i: nat, cb: Callbacks, calls: nat) returns (ok: bool, calls': nat)
      requires i < |files|
      modifies this`files
      ensures var p := EditNames(old(files[i].names), cb, calls);
        ok == p.ok && calls' == p.calls && files == old(files)[i := old(files[i]).(names := p.items)]
    {
      hide EditNames, EditName;
      ghost var f := files[i];
      calls' := calls;
      assert files == files[i := f] && f.(names := f.names) == f;
      assert f.names[0..] == f.names && [] + EditNames(f.names, cb, calls).items == EditNames(f.names, cb, calls).items;
      if cb.symbol.Some? {
        var n := 0;
        while n < |files[i].names|
          invariant |files| == |old(files)| && n <= |files[i].names|
          invariant files == old(files)[i := f.(names := files[i].names)]
          invariant EditNames(f.names, cb, calls)
                 == EditNames(files[i].names[n..], cb, calls').After(files[i].names[..n])
        {
          EditNamesAt(files[i].names, n, cb, calls');
          var e := EditName(files[i].names[n], cb.symbol.value(calls', files[i].names[n]));
          calls' := calls' + 1;
          files := files[i := files[i].(names := files[i].names[n := e.1])];
          if !e.0 {
            return false, calls';
          }
          n := n + 1;
        }
        assert files[i].names[..n] + [] == files[i].names && files[i].names[n..] == [];
      }
      EditNamesEnd(files[i].names, cb, calls');
      ok := true;
    }

    /** A file of the image: its name, then its symbols. */
    method EditFileAt(i: nat, cb: Callbacks, calls: nat) returns (ok: bool, calls': nat)
      requires i < |files| && !files[i].byway
      modifies this`files
      ensures var h := EditHead(old(files[i]), cb, calls);
        ok == h.ok && calls' == h.calls && files == old(files)[..i] + h.items + old(files)[i + 1..]
      ensures var part := [files[i]];
        if ok then HeadGood(old(files[i]), part, cb, calls) else HeadBreaks(old(files[i]), part, cb, calls)
    {
      hide EditNames, HeadGood, HeadBroken;
      ghost var j := HeadEdited(files[i], cb, calls);
      calls' := calls;
      var name := files[i].name;
      if cb.file.Some? {
        var a := cb.file.value(calls', files[i].orig, files[i].name);
        calls' := calls' + 1;
        if a.Abort? {
          return false, calls';
        }
        if a.Name? {
          name := Duplicate(a.s);
          files := files[i := files[i].(name := name)];
          if name.None? {
            return false, calls';
          }
        }
      }
      assert files[i].(name := name) == files[i];
      ok, calls' := EditSymbols(i, cb, calls');
    }

    /** A byway: kept, renamed or deleted. */
    method EditBywayAt(i: nat, cb: Callbacks, calls: nat) returns (ok: bool, deleted: bool, calls': nat)
      requires Valid() && i < |files| && files[i].byway
      modifies this`files, this`nImportFiles
      ensures Valid()
      ensures var h := EditHead(old(files[i]), cb, calls);
        ok == h.ok && calls' == h.calls && |h.items| == (if deleted then 0 else 1)
        && files == old(files)[..i] + h.items + old(files)[i + 1..]
      ensures var part := if deleted then [] else [files[i]];
        if ok then HeadGood(old(files[i]), part, cb, calls) else HeadBreaks(old(files[i]), part, cb, calls)
    {
      hide HeadGood, HeadBroken;
      ghost var j := HeadEdited(files[i], cb, calls);
      ok, deleted, calls' := true, false, calls;
      if cb.byway.Some? {
        var a := cb.byway.value(calls', files[i].name);
        calls' := calls' + 1;
        if a.Abort? {
          ok := false;
        } else if a.Name? {
          files := files[i := files[i].(name := Duplicate(a.s))];
          ok := files[i].name.Some?;
        } else if a.Null? || files[i].name.None? {
          files := files[..i] + files[i + 1..];
          nImportFiles := nImportFiles - 1;
          deleted := true;
        }
      }
    }

    /** The callbacks go over the list, and insert, rename and delete as they like.  The loop after the last file is the
        turn of this one at the end of the list. */
    method EditImports(cb: Callbacks, ghost limit: nat) returns (ok: bool)
      requires Valid() && cb.StopsAt(limit)
      modifies this`files, this`nImportFiles
      ensures Valid()
      ensures var p := Edited(old(files), cb, limit); ok == p.ok && files == p.items
      ensures EditedAs(old(files), files, ok, cb)
    {
      hide EditFrom, EditHead, Pass.After, EditedAs;
      EditIsTold(files, cb, limit);
      var i, k := 0, 0;
      EditFromStart(files, cb, limit);
      while true
        invariant Valid() && i <= |files|
        invariant EditFrom(old(files), cb, 0, limit) == EditFrom(files[i..], cb, k, limit).After(files[..i])
        decreases CallsLeft(limit, k), |files| - i
      {
        if cb.byway.Some? {
          EditFromInsert(files, i, cb, k, limit);
          var a := cb.byway.value(k, None);
          if a.Abort? {
            return false;
          }
          if a.Name? {
            var byway := NewByway(a.s);
            if byway.None? {
              return false;
            }
            files := files[..i] + [byway.value] + files[i..];
            i, k := i + 1, k + 1;
            continue;
          }
        }
        EditFromHead(files, i, cb, k, limit);
        k := if cb.byway.Some? then k + 1 else k;
        if i == |files| {
          break;
        }
        var edited, deleted := true, false;
        if files[i].byway {
          edited, deleted, k := EditBywayAt(i, cb, k);
        } else {
          edited, k := EditFileAt(i, cb, k);
        }
        if !edited {
          return false;
        }
        i := if deleted then i else i + 1;
      }
      return cb.commit.Some? ==> cb.commit.value(k);
    }

    /** DetourBinaryResetImports: with the originals known it leaves the list of the original image, for which no tables
        are needed. */
    method ResetImports() returns (ok: bool)
      requires Valid()
      modifies this`files, this`nImportFiles
      ensures Valid()
      ensures var p := Edited(old(files), RESET, 0); ok == p.ok && files == p.items
      ensures var o := Originals(old(files));
        Loaded(o) && AllKnown(o) ==> ok && files == Restored(o) && !Needed(files)
    {
      ghost var o := Originals(files);
      if Loaded(o) && AllKnown(o) {
        ResetRestores(files, 0);
        RestoredIsNotNeeded(o);
      }
      ok := EditImports(RESET, 0);
    }

    /** What the new tables will need, and whether they are needed. */
    method CheckImportsNeeded() returns (needed: bool, tables: nat, thunks: nat, chars: nat)
      requires Named(files)
      ensures needed == Needed(files)
      ensures tables == |files| + 1 && thunks == Thunks(files) && chars == Chars(files)
    {
      hide Needed, NamesNeeded, Named, Thunks, Chars;
      needed, tables, thunks, chars := false, 0, 0, 0;
      assert files[0..] == files;
      var i := 0;
      while i < |files|
        invariant i <= |files| && tables == i && Named(files[i..])
        invariant Needed(files) <==> needed || Needed(files[i..])
        invariant thunks + Thunks(files[i..]) == Thunks(files)
        invariant chars % 2 == 0 && chars + Chars(files[i..]) == Chars(files)
      {
        CountFrom(files, i);
        var f := files[i];
        chars := chars + |f.name.value| + 1;
        chars := chars + chars % 2;
        if f.byway {
          needed := true;
          thunks := thunks + 1;
        } else {
          var changed, size := CheckNames(f.names, chars);
          needed := needed || f.name != f.orig || changed;
          chars := size;
          thunks := thunks + |f.names|;
        }
        thunks := thunks + 1;
        tables := tables + 1;
        i := i + 1;
      }
      CountEnd(files, i);
      tables := tables + 1;
    }

    // -------- Writing

    /** The length of the output buffer after SizeOutputBuffer. */
    function BufferSize(cb: nat): (r: nat)
      requires fileAlignment > 0
      reads this
      ensures r >= cb
    {
      if output.Length < cb then Align(if cb < 1024 then 1024 else cb, fileAlignment) else output.Length
    }

    method SizeOutputBuffer(cb: nat)
      requires Valid()
      modifies this`output
      ensures output == old(output) || fresh(output)
      ensures output.Length == old(BufferSize(cb))
      ensures cb <= old(output.Length) ==> output == old(output)
      ensures cb > old(output.Length) ==>
                var least := if cb < 1024 then 1024 else cb;
                output.Length % fileAlignment == 0 && least <= output.Length < least + fileAlignment
      ensures |old(output[..])| <= output.Length && Holds(output[..], 0, old(output[..]))
      ensures Zero(output[..], |old(output[..])|, output.Length)
    {
      if output.Length < cb {
        var size := Align(if cb < 1024 then 1024 else cb, fileAlignment);
        var buffer := new Byte[size](k => 0);
        Store(buffer, 0, output[..]);
        output := buffer;
      }
    }

    /** The next cbData bytes, rounded up to eight, cleared; -1 stands for the null pointer. */
    method AllocateOutput(cbData: nat) returns (at: int, virtAddr: nat)
      modifies this`outputVirtSize, output
      ensures virtAddr == outputVirtAddr + old(outputVirtSize)
      ensures outputVirtSize == old(outputVirtSize) + QuadAlign(cbData)
      ensures at == if outputVirtSize <= output.Length then old(outputVirtSize) else -1
      ensures at >= 0 ==> Zero(output[..], at, outputVirtSize) && Agree(old(output[..]), output[..], 0, at)
      ensures at < 0 ==> output[..] == old(output[..])
    {
      var cb := QuadAlign(cbData);
      at := outputVirtSize;
      virtAddr := outputVirtAddr + outputVirtSize;
      outputVirtSize := outputVirtSize + cb;
      if outputVirtSize > output.Length {
        return -1, virtAddr;
      }
      ghost var was := output[..];
      Store(output, at, seq(cb, _ => 0));
      SpliceStores(was, at, seq(cb, _ => 0));
      HoldsAt(output[..], at, seq(cb, _ => 0));
    }

    /** The first allocations of Write: the header, the old start of the file, and the thunk tables. */
    method ReserveThunks(nThunks: nat, ghost l: Layout) returns (ok: bool, pThunks: int, pBound: int)
      requires Named(files) && l == LayoutOf(outputVirtAddr, cbPrePE, cbData, files) && nThunks == l.thunks
      requires outputVirtSize == 0 && cbPrePE % 8 == 0 && l.chars <= output.Length
      modifies this`outputVirtSize, output
      ensures ok && pThunks == l.lookup && pBound == l.bound && outputVirtSize == l.chars
    {
      hide QuadAlign, Zero, Agree;
      PlacesFit(cbPrePE, cbData, l, files);
      var head, prePE, virt;
      head, virt := AllocateOutput(SECTION_HEADER);
      prePE, virt := AllocateOutput(cbPrePE);
      pThunks, virt := AllocateOutput(THUNK * nThunks);
      pBound, virt := AllocateOutput(THUNK * nThunks);
      ok := head >= 0 && prePE >= 0;
    }

    /** The allocations of Write, one behind the other.  None fails, and the section ends exactly where the sizes said.
        */
    method ReserveTables(nTables: nat, nThunks: nat, nChars: nat, ghost l: Layout)
      returns (ok: bool, pThunks: int, pBound: int, pChars: int, rvaImports: nat)
      requires Valid() && Named(files) && nTables == |files| + 1 && nThunks == Thunks(files) && nChars == Chars(files)
      requires l == LayoutOf(outputVirtAddr, cbPrePE, cbData, files)
      modifies this`output, this`outputVirtSize, output
      ensures output == old(output) || fresh(output)
      ensures output.Length == old(BufferSize(OutputSize(cbPrePE, cbData, nThunks, nChars, nTables)))
      ensures ok && pThunks == l.lookup && pBound == l.bound && pChars == l.chars && rvaImports == l.base + l.table
      ensures outputVirtSize == OutputSize(cbPrePE, cbData, nThunks, nChars, nTables) <= output.Length
      ensures Sized(files, l, outputVirtSize)
      ensures Zero(output[..], l.chars, l.chars + l.size) && Zero(output[..], l.table, outputVirtSize)
    {
      hide QuadAlign, Zero, Agree, Align, Holds, Thunks, Chars, Named;
      PlacesFit(cbPrePE, cbData, l, files);
      outputVirtSize := 0;
      SizeOutputBuffer(OutputSize(cbPrePE, cbData, nThunks, nChars, nTables));
      ok, pThunks, pBound := ReserveThunks(nThunks, l);
      var virt, data, table;
      pChars, virt := AllocateOutput(nChars);
      ghost var buf := output[..];
      data, virt := AllocateOutput(cbData);
      ghost var buf' := output[..];
      table, rvaImports := AllocateOutput(DESCRIPTOR * nTables);
      ok := ok && data >= 0 && table >= 0;
      ZeroAgrees(buf, buf', l.chars, l.chars + QuadAlign(l.size), data);
      ZeroAgrees(buf', output[..], l.chars, l.chars + QuadAlign(l.size), table);
      ZeroPart(output[..], l.chars, l.chars + QuadAlign(l.size), l.chars + l.size);
    }

    /** The objects that fill the tables. */
    method MakeTables(pThunks: nat, pBound: nat, pChars: nat, nThunks: nat, nChars: nat, ghost l: Layout)
      returns (lookup: CImageThunks, bound: CImageThunks, names: CImageChars)
      requires nThunks == l.thunks && nChars == l.size && pThunks == l.lookup && pBound == l.bound && pChars == l.chars
      requires Named(files) && Sized(files, l, outputVirtSize)
      requires outputVirtSize <= output.Length && outputVirtAddr == l.base
      ensures fresh(lookup) && fresh(bound) && fresh(names) && names.buffer == output
      ensures StandAt(lookup, bound, names, l, Start(l))
    {
      lookup := new CImageThunks(output, pThunks, nThunks, outputVirtAddr + pThunks);
      bound := new CImageThunks(output, pBound, nThunks, outputVirtAddr + pBound);
      names := new CImageChars(output, pChars, nChars, outputVirtAddr + pChars);
    }

    method FillTables(lookup: CImageThunks, bound: CImageThunks, names: CImageChars, table: nat, ghost l: Layout)
      requires Fit(files) && Named(files) && names.buffer == output && table == l.table
      requires Sized(files, l, outputVirtSize) && outputVirtSize <= output.Length
      requires StandAt(lookup, bound, names, l, Start(l))
      requires Zero(output[..], l.chars, l.chars + l.size) && Zero(output[..], l.table, outputVirtSize)
      modifies lookup, bound, names, output
      ensures Written(output[..], files, l, Start(l))
    {
      hide Filled, FileWritten, Outside, Zero, Room, StandAt, Written, Fit, Named;
      var i, next := 0, table;
      PrefixFits(output[..], files, l, 0);
      FilledNothing(output[..], files, l);
      while i < |files|
        invariant i <= |files| && Fit(files[..i]) && Filled(output[..], files[..i], l, Start(l))
        invariant var c := End(files[..i], Start(l));
          next == c.table && StandAt(lookup, bound, names, l, c)
          && Zero(output[..], c.chars, l.chars + l.size) && Zero(output[..], c.table, outputVirtSize)
      {
        ghost var was := output[..];
        PrefixFits(was, files, l, i);
        PrefixFits(was, files, l, i + 1);
        EmitFile(files[i], lookup, bound, names, next, l, End(files[..i], Start(l)));
        FilledNext(was, output[..], files, l, i, outputVirtSize);
        i, next := i + 1, next + DESCRIPTOR;
      }
      assert files[..i] == files;
      FilledAll(output[..], files, l, outputVirtSize);
    }

    /** The tables themselves. */
    method WriteTables() returns (ok: bool, rvaImports: nat)
      requires Valid() && Fit(files) && Named(files)
      modifies this`output, this`outputVirtSize, output
      ensures Valid() && ok && (output == old(output) || fresh(output))
      ensures var size := OutputSize(cbPrePE, cbData, Thunks(files), Chars(files), |files| + 1);
        outputVirtSize == size <= output.Length == old(BufferSize(size))
      ensures var l := LayoutOf(outputVirtAddr, cbPrePE, cbData, files);
        rvaImports == l.base + l.table && Sized(files, l, outputVirtSize) && Written(output[..], files, l, Start(l))
    {
      hide Sized, Zero, Fit, Named, Written, StandAt;
      var needed, nTables, nThunks, nChars := CheckImportsNeeded();
      ghost var l := LayoutOf(outputVirtAddr, cbPrePE, cbData, files);
      var pThunks, pBound, pChars;
      ok, pThunks, pBound, pChars, rvaImports := ReserveTables(nTables, nThunks, nChars, l);
      if !ok {
        return;
      }
      var lookupTable, boundTable, nameTable := MakeTables(pThunks, pBound, pChars, nThunks, nChars, l);
      FillTables(lookupTable, boundTable, nameTable, rvaImports - outputVirtAddr, l);
    }

    /** The part of Write that fills the import tables. */
    method WriteImports() returns (ok: bool, rvaImports: nat)
      requires Valid() && Fit(files) && Named(files)
      modifies this`output, this`outputVirtSize, output
      ensures Valid() && ok && (output == old(output) || fresh(output))
      ensures rvaImports
           == outputVirtAddr + 64 + cbPrePE + 16 * Thunks(files) + QuadAlign(Chars(files)) + QuadAlign(cbData)
      ensures outputVirtSize == rvaImports - outputVirtAddr + QuadAlign(20 * (|files| + 1)) <= output.Length
      ensures output.Length == old(BufferSize(OutputSize(cbPrePE, cbData, Thunks(files), Chars(files), |files| + 1)))
      ensures var l := LayoutOf(outputVirtAddr, cbPrePE, cbData, files);
        rvaImports == l.base + l.table && Sized(files, l, outputVirtSize) && Written(output[..], files, l, Start(l))
      ensures forall img :: Installed(img, outputVirtAddr, output[..]) ==>
                ListShown(img, rvaImports, files, Thunks(files) > 1)
      ensures Short(files) ==> forall img, o, end ::
        Shows(img, files, outputVirtAddr, output[..], o, end) ==>
          (ComesBack(img, files) <==>
           img.Files(rvaImports, o, outputVirtAddr, end)
             == Some(Reloaded(files, outputVirtAddr + LayoutOf(outputVirtAddr, cbPrePE, cbData, files).bound)))
    {
      hide Installed, Ranges, OriginalsAt, ComesBack, Reloaded, Image.Files, Short, Thunks, Chars, ListShown, QuadAlign;
      hide Fit, Named, Written, BufferSize, OutputSize;
      SizesAdd(cbPrePE, cbData, files);
      ok, rvaImports := WriteTables();
      ghost var l := LayoutOf(outputVirtAddr, cbPrePE, cbData, files);
      forall img | Installed(img, outputVirtAddr, output[..])
        ensures ListShown(img, rvaImports, files, l.thunks > 1)
      {
        ShowList(img, outputVirtAddr, output[..], files, l, Start(l));
      }
      if Short(files) {
        forall img, o, end | Shows(img, files, outputVirtAddr, output[..], o, end)
          ensures ComesBack(img, files) <==>
                  img.Files(rvaImports, o, outputVirtAddr, end) == Some(Reloaded(files, outputVirtAddr + l.bound))
        {
          ReadBackIff(img, outputVirtAddr, output[..], files, l, Start(l), o, end);
        }
      }
    }
  }
}
