/** CImage::Read: the import list of an image, from its import directory and the original one beside it
    (detours/image.cpp). */
module ImageRead {
  import opened ByteBuffer
  import opened ImageImports
  import opened ImageLayout
  import opened Wrappers

  /** The image as RvaToVa shows it: its bytes by their relative virtual address, some of which are in no section.  A
      result of None stands for a failure of Read, or for a read outside the sections. */
  datatype Image = Image(bytes: seq<Option<Byte>>) {

    /** RvaToVa gives a pointer. */
    predicate Mapped(rva: nat) {
      0 < rva < |bytes| && bytes[rva].Some?
    }

    function Number(rva: nat, k: nat): Option<nat> {
      if rva + k <= |bytes| && forall j :: rva <= j < rva + k ==> bytes[j].Some? then
        Some(FromLe(seq(k, j requires 0 <= j < k => bytes[rva + j].value)))
      else None
    }

    function NameAt(rva: nat): Option<string>
      decreases |bytes| - rva
    {
      if rva >= |bytes| || bytes[rva].None? then None
      else if bytes[rva].value == 0 then Some("")
      else
        var rest := NameAt(rva + 1);
        if rest.None? then None else Some([bytes[rva].value as char] + rest.value)
    }

    /** The duplicate of the string at an address. */
    function CopyAt(rva: nat): Option<string> {
      var s := NameAt(rva);
      if s.None? then None else Duplicate(s.value)
    }

    /** The hint and name of a symbol in the import directory, by its thunk; nothing for a null pointer. */
    function SymbolName(thunk: nat): Option<(nat, Option<string>)> {
      if !Mapped(thunk) then Some((0, None))
      else
        var hint, name := Number(thunk, 2), CopyAt(thunk + 2);
        if hint.None? || name.None? then None else Some((hint.value, name))
    }

    /** The ordinal and name of a symbol in the original directory, by its thunk. */
    function SymbolOriginal(thunk: nat): Option<(nat, Option<string>)> {
      if thunk >= ORDINAL_FLAG then Some((thunk % 0x1_0000, None))
      else if !Mapped(thunk) then Some((0, None))
      else
        var orig := CopyAt(thunk + 2);
        if orig.None? then None else Some((0, orig))
    }

    /** A symbol, by its thunk and the address of the original one. */
    function Symbol(thunk: nat, look: nat): Option<ImportName> {
      if thunk >= ORDINAL_FLAG then Some(ImportName(0, thunk % 0x1_0000, thunk % 0x1_0000, None, None))
      else
        var now, was := SymbolName(thunk), Number(look, THUNK);
        if now.None? || was.None? then None
        else
          var o := SymbolOriginal(was.value);
          if o.None? then None
          else Some(ImportName(now.value.0, o.value.0, o.value.0, o.value.1, now.value.1))
    }

    /** The symbols of the thunks from `addr` on, up to a zero. */
    function Symbols(addr: nat, look: nat): Option<seq<ImportName>>
      decreases |bytes| - addr
    {
      var thunk := Number(addr, THUNK);
      if thunk.None? then None
      else if thunk.value == 0 then Some([])
      else
        var s, rest := Symbol(thunk.value, look), Symbols(addr + THUNK, look + THUNK);
        if s.None? || rest.None? then None else Some([s.value] + rest.value)
    }

    /** The thunks of the descriptor at `d`. */
    function ThunksOf(d: nat): Option<nat> {
      var lookup, first := Number(d, 4), Number(d + 16, 4);
      if lookup.None? || first.None? then None
      else Some(if lookup.value != 0 then lookup.value else first.value)
    }

    /** The symbols of the descriptor at `d`, the originals being those of `o`; none for a null pointer.  From a null
        pointer nothing can be read. */
    function FileSymbols(d: nat, o: nat): Option<seq<ImportName>> {
      var addr, look := ThunksOf(d), ThunksOf(o);
      if addr.None? || look.None? then None
      else if !Mapped(addr.value) then Some([])
      else Symbols(addr.value, if Mapped(look.value) then look.value else |bytes|)
    }

    /** The name of the descriptor at `d`. */
    function FileName(d: nat): Option<string> {
      var name := Number(d + 12, 4);
      if name.None? || !Mapped(name.value) then None else CopyAt(name.value)
    }

    /** The file of the descriptor at `d`, the originals being those of `o`.  One whose address table is in the section
        from `beg` to `end` is a byway. */
    function File(d: nat, o: nat, beg: nat, end: nat): Option<ImportFile> {
      var chain, name, first := Number(d + 8, 4), FileName(d), Number(d + 16, 4);
      if chain.None? || name.None? || first.None? then None
      else if beg <= first.value < end then Some(ImportFile(true, [], first.value, chain.value, None, name))
      else
        var orig, names := FileName(o), FileSymbols(d, o);
        if orig.None? || names.None? then None
        else Some(ImportFile(false, names.value, first.value, chain.value, orig, name))
    }

    /** The files of the descriptors from `d` on, up to one without thunks; byways have no original descriptor. */
    function Files(d: nat, o: nat, beg: nat, end: nat): Option<seq<ImportFile>>
      decreases |bytes| - d
    {
      var lookup, first := Number(d, 4), Number(d + 16, 4);
      if lookup.None? || first.None? then None
      else if lookup.value == 0 && first.value == 0 then Some([])
      else
        var f := File(d, o, beg, end);
        if f.None? then None
        else
          var rest := Files(d + DESCRIPTOR, if f.value.byway then o else o + DESCRIPTOR, beg, end);
          if rest.None? then None else Some([f.value] + rest.value)
    }

    /** The whole list; without an original directory the current one stands for it. */
    function Imports(directory: nat, original: nat, beg: nat, end: nat): Option<seq<ImportFile>> {
      if !Mapped(directory) then None
      else Files(directory, if Mapped(original) then original else directory, beg, end)
    }
  }

  // -------- The originals in an image

  /** The thunks from `look` on are those of the original symbols. */
  predicate SymbolsAt(img: Image, look: nat, names: seq<OriginalName>)
    decreases |names|
  {
    names == [] ||
    (&& img.Number(look, THUNK).Some?
     && img.SymbolOriginal(img.Number(look, THUNK).value) == Some((names[0].nOrig, names[0].orig))
     && SymbolsAt(img, look + THUNK, names[1..]))
  }

  /** The descriptor at `o` is that of the original file. */
  predicate OriginalAt(img: Image, o: nat, f: OriginalFile) {
    && f.orig.Some? && img.FileName(o) == f.orig
    && img.ThunksOf(o).Some?
    && (f.names != [] ==> img.Mapped(img.ThunksOf(o).value))
    && SymbolsAt(img, img.ThunksOf(o).value, f.names)
  }

  /** The descriptors from `o` on are those of the original files. */
  predicate OriginalsAt(img: Image, o: nat, fs: seq<OriginalFile>)
    decreases |fs|
  {
    fs == [] || (OriginalAt(img, o, fs[0]) && OriginalsAt(img, o + DESCRIPTOR, fs[1..]))
  }

  lemma FreshSymbol(img: Image, addr: nat)
    requires img.Number(addr, THUNK).Some? && img.Symbol(img.Number(addr, THUNK).value, addr).Some?
    ensures var thunk := img.Number(addr, THUNK).value;
      var n := img.Symbol(thunk, addr).value;
      && OriginalName(n.hint, n.nOrig, n.orig).Restored() == n
      && img.SymbolOriginal(thunk) == Some((n.nOrig, n.orig))
      && (n.orig.Some? ==> |n.orig.value| < MAX_STRING)
  {
    hide Image.Number, Image.NameAt;
  }

  /** An image that was not edited gives symbols as they are after a reset, and it holds their originals. */
  lemma {:induction false} FreshSymbols(img: Image, addr: nat)
    requires img.Symbols(addr, addr).Some?
    ensures var names := img.Symbols(addr, addr).value;
      && names == RestoredNames(OriginalNames(names)) && SymbolsAt(img, addr, OriginalNames(names))
      && forall n <- OriginalNames(names) :: n.orig.Some? ==> |n.orig.value| < MAX_STRING
    decreases |img.bytes| - addr
  {
    var names := img.Symbols(addr, addr).value;
    if names != [] {
      FreshSymbols(img, addr + THUNK);
      var o, n := OriginalNames(names), names[0];
      assert o == [OriginalName(n.hint, n.nOrig, n.orig)] + OriginalNames(names[1..]);
      assert RestoredNames(o) == [o[0].Restored()] + RestoredNames(o[1..]);
      FreshSymbol(img, addr);
    }
  }

  lemma FreshFile(img: Image, d: nat, beg: nat)
    requires img.File(d, d, beg, beg).Some?
    ensures var f := img.File(d, d, beg, beg).value;
      && !f.byway && OriginalOf(f).Restored() == f && OriginalAt(img, d, OriginalOf(f))
      && |f.orig.value| < MAX_STRING
      && forall n <- OriginalNames(f.names) :: n.orig.Some? ==> |n.orig.value| < MAX_STRING
  {
    hide Image.Number, Image.Symbols, Image.NameAt;
    var look := img.ThunksOf(d).value;
    if img.Mapped(look) {
      FreshSymbols(img, look);
    }
  }

  /** What Read gives for an image that was not edited is a fresh list, of which the image holds the originals. */
  lemma {:induction false} ReadIsFresh(img: Image, d: nat, beg: nat)
    requires img.Files(d, d, beg, beg).Some?
    ensures var files := img.Files(d, d, beg, beg).value; Fresh(files) && OriginalsAt(img, d, Originals(files))
    decreases |img.bytes| - d
  {
    var files := img.Files(d, d, beg, beg).value;
    if files != [] {
      hide Image.Number, Image.Symbols, Image.NameAt, SymbolsAt;
      var f, rest := files[0], files[1..];
      ReadIsFresh(img, d + DESCRIPTOR, beg);
      FreshFile(img, d, beg);
      RestoredCons(files);
      assert Originals(files) == [OriginalOf(f)] + Originals(rest);
    }
  }

  // -------- Reading the tables that were written

  /** The buffer is the section at `base`. */
  predicate Installed(img: Image, base: nat, buf: seq<Byte>) {
    && 0 < base && base + |buf| <= |img.bytes| && base + |buf| <= DWORD_LIMIT
    && forall k {:trigger buf[k]} :: 0 <= k < |buf| ==> img.bytes[base + k] == Some(buf[k])
  }

  /** The bytes held in the buffer are in the image. */
  lemma InstalledHolds(img: Image, base: nat, buf: seq<Byte>, at: nat, b: seq<Byte>)
    requires Installed(img, base, buf) && Holds(buf, at, b)
    ensures base + at + |b| <= |img.bytes|
    ensures forall j {:trigger img.bytes[j]} :: base + at <= j < base + at + |b| ==>
              img.bytes[j] == Some(b[j - base - at])
  {
    HoldsAt(buf, at, b);
    forall j {:trigger img.bytes[j]} | base + at <= j < base + at + |b|
      ensures img.bytes[j] == Some(b[j - base - at])
    {
      assert buf[j - base] == b[j - base - at];
    }
  }

  lemma NumberIs(img: Image, rva: nat, b: seq<Byte>)
    requires rva + |b| <= |img.bytes|
    requires forall j {:trigger img.bytes[j]} :: rva <= j < rva + |b| ==> img.bytes[j] == Some(b[j - rva])
    ensures img.Number(rva, |b|) == Some(FromLe(b))
  {
    hide FromLe;
    assert forall j :: rva <= j < rva + |b| ==> img.bytes[j].Some?;
    assert seq(|b|, j requires 0 <= j < |b| => img.bytes[rva + j].value) == b;
  }

  lemma ReadNumber(img: Image, base: nat, buf: seq<Byte>, at: nat, n: nat, k: nat)
    requires Installed(img, base, buf) && n < Limit(k) && Holds(buf, at, Le(n, k))
    ensures img.Number(base + at, k) == Some(n)
  {
    hide *;
    FromLeLe(n, k);
    InstalledHolds(img, base, buf, at, Le(n, k));
    NumberIs(img, base + at, Le(n, k));
  }

  lemma {:induction false} ReadName(img: Image, base: nat, buf: seq<Byte>, at: nat, name: string)
    requires Installed(img, base, buf) && Text(name) && Holds(buf, at, Chars0(name))
    ensures img.NameAt(base + at) == Some(name)
    decreases |name|
  {
    HoldsAt(buf, at, Chars0(name));
    assert buf[at] == Chars0(name)[0];
    if name != "" {
      HoldsTwo(buf, at, [name[0] as int], Chars0(name[1..]));
      ReadName(img, base, buf, at + 1, name[1..]);
      assert [buf[at] as char] + name[1..] == name;
    }
  }

  lemma MappedAt(img: Image, base: nat, buf: seq<Byte>, at: nat)
    requires Installed(img, base, buf) && at < |buf|
    ensures img.Mapped(base + at)
  {
    assert img.bytes[base + at] == Some(buf[at]);
  }

  /** A symbol as it comes back: an ordinal keeps 16 bits and counts as the original one. */
  function ReloadedName(n: ImportName): ImportName {
    if n.name.Some? then n.(nOrdinal := n.nOrig)
    else ImportName(0, n.nOrdinal % 0x1_0000, n.nOrdinal % 0x1_0000, None, None)
  }

  function ReloadedNames(names: seq<ImportName>): (r: seq<ImportName>)
    ensures |r| == |names|
  {
    if names == [] then [] else [ReloadedName(names[0])] + ReloadedNames(names[1..])
  }

  predicate ShortNames(names: seq<ImportName>) {
    forall n <- names :: n.name.Some? ==> |n.name.value| < MAX_STRING
  }

  /** The names of the list were made by DuplicateString. */
  predicate Short(files: seq<ImportFile>) {
    forall f <- files :: f.name.Some? && |f.name.value| < MAX_STRING && ShortNames(f.names)
  }

  lemma BytesInside(buf: seq<Byte>, at: nat, b: seq<Byte>)
    requires Holds(buf, at, b)
    ensures at + |b| <= |buf|
  {
  }

  /** The hint, and the name behind it. */
  lemma HintAndName(buf: seq<Byte>, n: ImportName, at: nat)
    requires FitName(n) && n.name.Some? && Holds(buf, at, SymbolBytes(n))
    ensures Holds(buf, at, Le(n.hint, 2)) && Holds(buf, at + 2, Chars0(n.name.value)) && at < |buf|
  {
    hide Le, Chars0, Holds;
    var b := Le(n.hint, 2) + Chars0(n.name.value);
    var p := SymbolBytes(n);
    HoldsTwo(buf, at, b, p[|b|..]);
    assert b + p[|b|..] == p;
    HoldsTwo(buf, at, Le(n.hint, 2), Chars0(n.name.value));
    BytesInside(buf, at, p);
  }

  lemma ReadSymbolName(img: Image, base: nat, buf: seq<Byte>, n: ImportName, at: nat)
    requires Installed(img, base, buf) && FitName(n) && ShortNames([n]) && Holds(buf, at, SymbolBytes(n))
    requires n.name.Some?
    ensures img.SymbolName(base + at) == Some((n.hint, n.name))
  {
    hide Le, FromLe, Chars0, Image.Number, Image.NameAt, Holds, Installed, SymbolBytes;
    assert n in [n];
    HintAndName(buf, n, at);
    Limits();
    MappedAt(img, base, buf, at);
    ReadNumber(img, base, buf, at, n.hint, 2);
    ReadName(img, base, buf, at + 2, n.name.value);
  }

  lemma NameInside(img: Image, base: nat, buf: seq<Byte>, at: nat, n: ImportName)
    requires Installed(img, base, buf) && FitName(n) && Holds(buf, at, SymbolBytes(n))
    ensures n.name.Some? ==> 0 < base + at < DWORD_LIMIT
  {
  }

  lemma ReadSymbol(img: Image, base: nat, buf: seq<Byte>, n: ImportName, at: nat, look: nat)
    requires Installed(img, base, buf) && FitName(n) && ShortNames([n]) && Holds(buf, at, SymbolBytes(n))
    requires SymbolsAt(img, look, OriginalNames([n]))
    ensures img.Symbol(if n.name.Some? then base + at else ORDINAL_FLAG + n.nOrdinal, look) == Some(ReloadedName(n))
  {
    assert OriginalNames([n])[0] == OriginalName(n.hint, n.nOrig, n.orig);
    if n.name.Some? {
      NameInside(img, base, buf, at, n);
      ReadSymbolName(img, base, buf, n, at);
    }
    hide Image.Number, Image.SymbolOriginal, Image.SymbolName, Holds, Installed, SymbolBytes, ShortNames;
  }

  lemma ReadWord(img: Image, base: nat, buf: seq<Byte>, at: nat, t: seq<nat>, k: nat)
    requires k == 4 || k == 8
    requires Installed(img, base, buf) && t != [] && t[0] < Limit(k) && Holds(buf, at, Words(t, k))
    ensures img.Number(base + at, k) == Some(t[0])
    ensures Holds(buf, at + k, Words(t[1..], k))
  {
    hide Le, FromLe;
    HoldsTwo(buf, at, Le(t[0], k), Words(t[1..], k));
    ReadNumber(img, base, buf, at, t[0], k);
  }

  lemma SymbolsAtCons(img: Image, look: nat, names: seq<ImportName>)
    requires names != [] && SymbolsAt(img, look, OriginalNames(names))
    ensures SymbolsAt(img, look, OriginalNames([names[0]]))
    ensures SymbolsAt(img, look + THUNK, OriginalNames(names[1..]))
  {
    var n, o := names[0], OriginalNames(names);
    assert o[0] == OriginalName(n.hint, n.nOrig, n.orig) && o[1..] == OriginalNames(names[1..]);
    assert OriginalNames([n]) == [o[0]];
  }

  lemma {:induction false} ReadSymbols(img: Image, base: nat, buf: seq<Byte>, names: seq<ImportName>, at: nat,
                                       chars: nat, look: nat)
    requires Installed(img, base, buf) && ShortNames(names)
    requires forall n <- names :: FitName(n)
    requires Holds(buf, at, Words(SymbolThunks(names, base + chars), THUNK)) && Holds(buf, chars, SymbolsBytes(names))
    requires SymbolsAt(img, look, OriginalNames(names))
    ensures img.Symbols(base + at, look) == Some(ReloadedNames(names))
    decreases |names|
  {
    hide Le, FromLe, SymbolBytes, Chars0, Words, Image.Symbol, Image.NameAt, Image.Number, SymbolsAt, Installed;
    var t := SymbolThunks(names, base + chars);
    Limits();
    if names != [] {
      HoldsTwo(buf, chars, SymbolBytes(names[0]), SymbolsBytes(names[1..]));
      var chars' := chars + SymbolSize(names[0]);
      assert t[1..] == SymbolThunks(names[1..], base + chars');
      NameInside(img, base, buf, chars, names[0]);
      ReadWord(img, base, buf, at, t, THUNK);
      SymbolsAtCons(img, look, names);
      ReadSymbol(img, base, buf, names[0], chars, look);
      ReadSymbols(img, base, buf, names[1..], at + THUNK, chars', look + THUNK);
    } else {
      ReadWord(img, base, buf, at, t, THUNK);
    }
  }

  lemma ReadFields(img: Image, base: nat, buf: seq<Byte>, at: nat, d: seq<nat>)
    requires Installed(img, base, buf) && |d| == 5 && forall k :: 0 <= k < 5 ==> d[k] < DWORD_LIMIT
    requires Holds(buf, at, Words(d, 4))
    ensures img.Number(base + at, 4) == Some(d[0]) && img.Number(base + at + 4, 4) == Some(d[1])
    ensures img.Number(base + at + 8, 4) == Some(d[2])
    ensures img.Number(base + at + 12, 4) == Some(d[3]) && img.Number(base + at + 16, 4) == Some(d[4])
  {
    hide Holds, Words, Image.Number, Installed;
    Limits();
    ReadWord(img, base, buf, at, d, 4);
    ReadWord(img, base, buf, at + 4, d[1..], 4);
    ReadWord(img, base, buf, at + 8, d[2..], 4);
    ReadWord(img, base, buf, at + 12, d[3..], 4);
    ReadWord(img, base, buf, at + 16, d[4..], 4);
  }

  lemma FileFits(buf: seq<Byte>, f: ImportFile, l: Layout, c: Cursor)
    requires FitFile(f) && FileWritten(buf, f, l, c)
    ensures c.lookup < |buf| && c.chars < |buf| && (f.byway ==> c.bound < |buf|)
  {
    hide Words, Chars0, SymbolsBytes;
  }

  /** A file as it comes back: the address table of a byway is the new one. */
  function ReloadedFile(f: ImportFile, first: nat): ImportFile {
    if f.byway then ImportFile(true, [], first, f.forwarderChain, None, f.name)
    else f.(names := ReloadedNames(f.names))
  }

  /** The list as it comes back, the address tables of byways being laid out from `first` on. */
  function Reloaded(files: seq<ImportFile>, first: nat): (r: seq<ImportFile>)
    ensures |r| == |files|
  {
    if files == [] then []
    else [ReloadedFile(files[0], first)] + Reloaded(files[1..], first + THUNK * |BoundThunks(files[0])|)
  }

  /** Where the new tables are found, and that the address tables of the files of the image lie elsewhere. */
  predicate Ranges(files: seq<ImportFile>, base: nat, buf: seq<Byte>, end: nat) {
    base + |buf| <= end && forall f <- files :: !f.byway ==> !(base <= f.rvaFirstThunk < end)
  }

  lemma DescriptorFits(img: Image, base: nat, buf: seq<Byte>, f: ImportFile, l: Layout, c: Cursor)
    requires Installed(img, base, buf) && l.base == base && FitFile(f) && FileWritten(buf, f, l, c)
    ensures forall k :: 0 <= k < 5 ==> Descriptor(f, l, c)[k] < DWORD_LIMIT
  {
    FileFits(buf, f, l, c);
  }

  lemma PlacesInside(img: Image, base: nat, buf: seq<Byte>, f: ImportFile, l: Layout, c: Cursor)
    requires Installed(img, base, buf) && FitFile(f) && FileWritten(buf, f, l, c)
    ensures f.name.Some? && 0 < base + c.lookup && (f.byway ==> c.bound < |buf|)
  {
    FileFits(buf, f, l, c);
    hide FileWritten;
  }

  lemma DescriptorHeld(buf: seq<Byte>, f: ImportFile, l: Layout, c: Cursor)
    requires FitFile(f) && FileWritten(buf, f, l, c)
    ensures Holds(buf, c.table, Words(Descriptor(f, l, c), 4))
  {
    hide Holds, Words, Descriptor, FileBytes, FileThunks, FitFile;
  }

  /** The fields of a descriptor that is read back. */
  lemma DescriptorFields(f: ImportFile, l: Layout, c: Cursor)
    requires f.byway || l.thunks > 1
    ensures var d := Descriptor(f, l, c);
      && d[0] == l.base + c.lookup && d[2] == f.forwarderChain && d[3] == l.base + c.chars
      && d[4] == if f.byway then l.base + c.bound else f.rvaFirstThunk
  {
  }

  lemma DescriptorRead(img: Image, base: nat, buf: seq<Byte>, f: ImportFile, l: Layout, c: Cursor)
    requires Installed(img, base, buf) && FitFile(f) && l.base == base && FileWritten(buf, f, l, c)
    ensures var d, at := Descriptor(f, l, c), base + c.table;
      && img.Number(at, 4) == Some(d[0]) && img.Number(at + 8, 4) == Some(d[2])
      && img.Number(at + 12, 4) == Some(d[3]) && img.Number(at + 16, 4) == Some(d[4])
      && img.ThunksOf(at) == Some(if d[0] != 0 then d[0] else d[4])
  {
    hide Words, Holds, Image.Number, FileWritten, Installed, FitFile, Descriptor;
    DescriptorFits(img, base, buf, f, l, c);
    DescriptorHeld(buf, f, l, c);
    ReadFields(img, base, buf, c.table, Descriptor(f, l, c));
  }

  /** The name of a file stands at the start of its bytes. */
  lemma NameInBytes(buf: seq<Byte>, f: ImportFile, at: nat)
    requires FitFile(f) && Holds(buf, at, FileBytes(f))
    ensures Holds(buf, at, Chars0(f.name.value))
  {
    hide Holds, Chars0, SymbolsBytes;
    var name := Padded(Chars0(f.name.value));
    HoldsTwo(buf, at, name, if f.byway then [] else SymbolsBytes(f.names));
    HoldsTwo(buf, at, Chars0(f.name.value), name[|f.name.value| + 1..]);
    assert Chars0(f.name.value) + name[|f.name.value| + 1..] == name;
  }

  lemma ReadFileName(img: Image, base: nat, buf: seq<Byte>, f: ImportFile, l: Layout, c: Cursor)
    requires Installed(img, base, buf) && FitFile(f) && Short([f]) && l.base == base && FileWritten(buf, f, l, c)
    requires img.Number(base + c.table + 12, 4) == Some(base + c.chars)
    ensures img.FileName(base + c.table) == f.name
  {
    hide Words, FileBytes, Chars0, Image.NameAt, Image.Number, Installed, Holds, FileThunks, Descriptor;
    assert f in [f];
    NameInBytes(buf, f, c.chars);
    FileFits(buf, f, l, c);
    MappedAt(img, base, buf, c.chars);
    ReadName(img, base, buf, c.chars, f.name.value);
  }

  lemma ReadFileSymbols(img: Image, base: nat, buf: seq<Byte>, f: ImportFile, l: Layout, c: Cursor, o: nat)
    requires Installed(img, base, buf) && FitFile(f) && Short([f]) && l.base == base && FileWritten(buf, f, l, c)
    requires !f.byway && OriginalAt(img, o, OriginalOf(f))
    requires img.ThunksOf(base + c.table) == Some(base + c.lookup)
    ensures img.FileSymbols(base + c.table, o) == Some(ReloadedNames(f.names))
  {
    hide Holds, Words, SymbolsBytes, Chars0, Image.Symbols, Image.ThunksOf, Image.Number, Image.FileName, Installed;
    assert f in [f];
    FileFits(buf, f, l, c);
    MappedAt(img, base, buf, c.lookup);
    HoldsTwo(buf, c.chars, Padded(Chars0(f.name.value)), SymbolsBytes(f.names));
    var look := img.ThunksOf(o).value;
    ReadSymbols(img, base, buf, f.names, c.lookup, c.chars + NameSize(f.name.value),
                if img.Mapped(look) then look else |img.bytes|);
  }

  lemma ReadFile(img: Image, base: nat, buf: seq<Byte>, f: ImportFile, l: Layout, c: Cursor, o: nat, end: nat)
    requires Installed(img, base, buf) && FitFile(f) && Short([f]) && l.base == base && FileWritten(buf, f, l, c)
    requires Ranges([f], base, buf, end) && (!f.byway ==> OriginalAt(img, o, OriginalOf(f)))
    requires f.byway || l.thunks > 1
    ensures img.File(base + c.table, o, base, end) == Some(ReloadedFile(f, base + c.bound))
  {
    hide Image.Number, Image.FileName, Image.FileSymbols, FileWritten, Installed, SymbolsAt, ReloadedNames;
    hide Image.ThunksOf, FitFile, Descriptor, Short;
    assert f in [f];
    PlacesInside(img, base, buf, f, l, c);
    DescriptorFields(f, l, c);
    DescriptorRead(img, base, buf, f, l, c);
    ReadFileName(img, base, buf, f, l, c);
    if !f.byway {
      ReadFileSymbols(img, base, buf, f, l, c, o);
    }
  }

  lemma OriginalsAtCons(img: Image, o: nat, files: seq<ImportFile>)
    requires files != [] && OriginalsAt(img, o, Originals(files))
    ensures if files[0].byway then OriginalsAt(img, o, Originals(files[1..]))
            else OriginalAt(img, o, OriginalOf(files[0])) && OriginalsAt(img, o + DESCRIPTOR, Originals(files[1..]))
  {
    hide OriginalAt;
    if files[0].byway {
      assert Originals(files) == Originals(files[1..]);
    } else {
      assert Originals(files)[1..] == Originals(files[1..]);
    }
  }

  lemma PremisesCons(files: seq<ImportFile>, base: nat, buf: seq<Byte>, end: nat)
    requires files != [] && Short(files) && Ranges(files, base, buf, end)
    ensures Short([files[0]]) && Ranges([files[0]], base, buf, end)
    ensures Short(files[1..]) && Ranges(files[1..], base, buf, end)
  {
    assert files[0] in files && forall f <- files[1..] :: f in files;
  }

  lemma FilesCons(img: Image, d: nat, o: nat, beg: nat, end: nat, f: ImportFile, rest: seq<ImportFile>)
    requires img.Number(d, 4).Some? && img.Number(d + 16, 4).Some? && img.Number(d, 4).value != 0
    requires img.File(d, o, beg, end) == Some(f)
    requires img.Files(d + DESCRIPTOR, if f.byway then o else o + DESCRIPTOR, beg, end) == Some(rest)
    ensures img.Files(d, o, beg, end) == Some([f] + rest)
  {
    hide Image.Number, Image.File;
  }

  /** An empty descriptor ends the table. */
  lemma ReadEmpty(img: Image, base: nat, buf: seq<Byte>, at: nat, o: nat, end: nat)
    requires Installed(img, base, buf) && Holds(buf, at, Words(LAST, 4))
    ensures img.Files(base + at, o, base, end) == Some([])
  {
    hide Image.Number, Words, Holds, Installed;
    ReadFields(img, base, buf, at, LAST);
  }

  /** Reading the written tables gives back the list, with the originals that the image holds. */
  lemma {:induction false} ReadFiles(img: Image, base: nat, buf: seq<Byte>, files: seq<ImportFile>, l: Layout,
                                     c: Cursor, o: nat, end: nat)
    requires Installed(img, base, buf) && Fit(files) && Short(files) && l.base == base
    requires l.thunks > 1 || files == []
    requires Written(buf, files, l, c)
    requires Ranges(files, base, buf, end) && OriginalsAt(img, o, Originals(files))
    ensures img.Files(base + c.table, o, base, end) == Some(Reloaded(files, base + c.bound))
    decreases |files|
  {
    hide Words, FileWritten, Image.File, Image.Files, Image.Number, Image.ThunksOf, Holds, OriginalAt, OriginalsAt;
    hide ReloadedNames, Ranges, Short, FitFile, Descriptor;
    if files == [] {
      ReadEmpty(img, base, buf, c.table, o, end);
    } else {
      var f, rest := files[0], files[1..];
      assert f in files;
      PremisesCons(files, base, buf, end);
      OriginalsAtCons(img, o, files);
      ReadFile(img, base, buf, f, l, c, o, end);
      DescriptorFields(f, l, c);
      DescriptorRead(img, base, buf, f, l, c);
      var o' := if f.byway then o else o + DESCRIPTOR;
      ReadFiles(img, base, buf, rest, l, c.After(f), o', end);
      FilesCons(img, base + c.table, o, base, end, ReloadedFile(f, base + c.bound),
                Reloaded(rest, base + c.After(f).bound));
    }
  }

  // -------- The tables in numbers

  /** The thunk at `addr` shows the symbol: bit 63 and the ordinal, or the address of the hint and the name. */
  predicate SymbolShown(img: Image, addr: nat, n: ImportName) {
    var thunk := img.Number(addr, 8);
    && thunk.Some?
    && if n.name.None? then thunk.value == 0x8000_0000_0000_0000 + n.nOrdinal
       else
         && thunk.value < 0x8000_0000_0000_0000
         && img.Number(thunk.value, 2) == Some(n.hint) && img.NameAt(thunk.value + 2) == n.name
  }

  /** The thunks from `addr` on show the symbols, and a zero ends them. */
  predicate SymbolsShown(img: Image, addr: nat, names: seq<ImportName>) {
    && img.Number(addr + 8 * |names|, 8) == Some(0)
    && forall j {:trigger names[j]} :: 0 <= j < |names| ==> SymbolShown(img, addr + 8 * j, names[j])
  }

  /** The thunks of a byway: ordinal 1. */
  predicate BywayShown(img: Image, addr: nat) {
    img.Number(addr, 8) == Some(0x8000_0000_0000_0001) && img.Number(addr + 8, 8) == Some(0)
  }

  /** The descriptor at `d` shows the file; `lookup` is false if no lookup table is stored. */
  predicate FileShown(img: Image, d: nat, f: ImportFile, lookup: bool) {
    var table, name, first := img.Number(d, 4), img.Number(d + 12, 4), img.Number(d + 16, 4);
    && table.Some? && name.Some? && first.Some?
    && img.Number(d + 4, 4) == Some(0) && img.Number(d + 8, 4) == Some(f.forwarderChain)
    && img.NameAt(name.value) == f.name
    && if f.byway then BywayShown(img, table.value) && BywayShown(img, first.value)
       else
         && first.value == f.rvaFirstThunk
         && (if lookup then SymbolsShown(img, table.value, f.names) else table.value == 0)
  }

  /** The descriptors from `d` on show the list, and one of five zeros ends them. */
  predicate ListShown(img: Image, d: nat, files: seq<ImportFile>, lookup: bool) {
    && (forall i {:trigger files[i]} :: 0 <= i < |files| ==> FileShown(img, d + 20 * i, files[i], lookup))
    && var e := d + 20 * |files|;
       && img.Number(e, 4) == Some(0) && img.Number(e + 4, 4) == Some(0) && img.Number(e + 8, 4) == Some(0)
       && img.Number(e + 12, 4) == Some(0) && img.Number(e + 16, 4) == Some(0)
  }

  lemma ShowSymbol(img: Image, base: nat, buf: seq<Byte>, n: ImportName, at: nat, chars: nat)
    requires Installed(img, base, buf) && FitName(n) && Holds(buf, chars, SymbolBytes(n))
    requires img.Number(base + at, 8) == Some(if n.name.Some? then base + chars else ORDINAL_FLAG + n.nOrdinal)
    ensures SymbolShown(img, base + at, n)
  {
    hide Le, FromLe, Chars0, Image.Number, Image.NameAt, Holds, Installed, SymbolBytes;
    if n.name.Some? {
      NameInside(img, base, buf, chars, n);
      HintAndName(buf, n, chars);
      Limits();
      ReadNumber(img, base, buf, chars, n.hint, 2);
      ReadName(img, base, buf, chars + 2, n.name.value);
    }
  }

  lemma {:induction false} ShowSymbols(img: Image, base: nat, buf: seq<Byte>, names: seq<ImportName>, at: nat,
                                       chars: nat)
    requires Installed(img, base, buf) && forall n <- names :: FitName(n)
    requires Holds(buf, at, Words(SymbolThunks(names, base + chars), THUNK)) && Holds(buf, chars, SymbolsBytes(names))
    ensures SymbolsShown(img, base + at, names)
    decreases |names|
  {
    hide Le, FromLe, SymbolBytes, Chars0, Words, Image.Number, Holds, Installed, SymbolShown;
    var t := SymbolThunks(names, base + chars);
    Limits();
    if names != [] {
      var rest, chars' := names[1..], chars + SymbolSize(names[0]);
      HoldsTwo(buf, chars, SymbolBytes(names[0]), SymbolsBytes(rest));
      assert t[1..] == SymbolThunks(rest, base + chars');
      NameInside(img, base, buf, chars, names[0]);
      ReadWord(img, base, buf, at, t, THUNK);
      ShowSymbol(img, base, buf, names[0], at, chars);
      ShowSymbols(img, base, buf, rest, at + 8, chars');
      forall j {:trigger names[j]} | 0 <= j < |names| ensures SymbolShown(img, base + at + 8 * j, names[j]) {
        if j > 0 {
          assert names[j] == rest[j - 1] && base + at + 8 * j == base + (at + 8) + 8 * (j - 1);
        }
      }
    } else {
      ReadWord(img, base, buf, at, t, THUNK);
    }
  }

  lemma ShowByway(img: Image, base: nat, buf: seq<Byte>, at: nat)
    requires Installed(img, base, buf) && Holds(buf, at, Words(BYWAY, THUNK))
    ensures BywayShown(img, base + at)
  {
    hide Words, Holds, Image.Number, Installed;
    Limits();
    ReadWord(img, base, buf, at, BYWAY, THUNK);
    assert BYWAY[1..] == [0];
    ReadWord(img, base, buf, at + 8, BYWAY[1..], THUNK);
  }

  lemma ShowFile(img: Image, base: nat, buf: seq<Byte>, f: ImportFile, l: Layout, c: Cursor)
    requires Installed(img, base, buf) && FitFile(f) && l.base == base && FileWritten(buf, f, l, c)
    ensures FileShown(img, base + c.table, f, l.thunks > 1)
  {
    hide Holds, Words, Image.Number, Image.NameAt, Installed, SymbolsShown, BywayShown, SymbolsBytes, Chars0;
    DescriptorFits(img, base, buf, f, l, c);
    ReadFields(img, base, buf, c.table, Descriptor(f, l, c));
    NameInBytes(buf, f, c.chars);
    ReadName(img, base, buf, c.chars, f.name.value);
    if f.byway {
      ShowByway(img, base, buf, c.lookup);
      ShowByway(img, base, buf, c.bound);
    } else {
      HoldsTwo(buf, c.chars, Padded(Chars0(f.name.value)), SymbolsBytes(f.names));
      ShowSymbols(img, base, buf, f.names, c.lookup, c.chars + NameSize(f.name.value));
    }
  }

  /** What every image that has the section in it shows at the new directory. */
  lemma {:induction false} ShowList(img: Image, base: nat, buf: seq<Byte>, files: seq<ImportFile>, l: Layout, c: Cursor)
    requires Installed(img, base, buf) && Fit(files) && l.base == base && Written(buf, files, l, c)
    ensures ListShown(img, base + c.table, files, l.thunks > 1)
    decreases |files|
  {
    hide Holds, Words, Image.Number, Installed, FileShown, FileWritten;
    if files == [] {
      ReadFields(img, base, buf, c.table, LAST);
    } else {
      var f, rest, d := files[0], files[1..], base + c.table;
      assert f in files;
      ShowFile(img, base, buf, f, l, c);
      ShowList(img, base, buf, rest, l, c.After(f));
      forall i {:trigger files[i]} | 0 <= i < |files| ensures FileShown(img, d + 20 * i, files[i], l.thunks > 1) {
        if i > 0 {
          assert files[i] == rest[i - 1] && d + 20 * i == d + 20 + 20 * (i - 1);
        }
      }
    }
  }

  // -------- When the list is read back

  /** A descriptor without a lookup table is read by its address table, which then has to be empty or a null pointer. */
  predicate LoneIsRead(img: Image, f: ImportFile) {
    f.rvaFirstThunk != 0 && (!img.Mapped(f.rvaFirstThunk) || img.Number(f.rvaFirstThunk, THUNK) == Some(0))
  }

  /** CImageThunks gives no address when it has room for one thunk only, so a list that is a single file without symbols
      loses the address of its lookup table. */
  predicate ComesBack(img: Image, files: seq<ImportFile>) {
    Thunks(files) != 1 || LoneIsRead(img, files[0])
  }

  lemma NoSymbolsIff(img: Image, addr: nat, look: nat)
    ensures img.Symbols(addr, look) == Some([]) <==> img.Number(addr, THUNK) == Some(0)
  {
    hide Image.Number, Image.Symbol;
  }

  lemma LoneSymbols(img: Image, d: nat, o: nat, f: ImportFile)
    requires img.ThunksOf(d) == Some(f.rvaFirstThunk) && img.ThunksOf(o).Some? && f.rvaFirstThunk != 0
    ensures img.FileSymbols(d, o) == Some([]) <==> LoneIsRead(img, f)
  {
    hide Image.Number, Image.Symbols, Image.ThunksOf;
    var look := img.ThunksOf(o).value;
    NoSymbolsIff(img, f.rvaFirstThunk, if img.Mapped(look) then look else |img.bytes|);
  }

  lemma LoneOrEmpty(img: Image, f: ImportFile)
    ensures f.rvaFirstThunk == 0 ==> !LoneIsRead(img, f)
  {
  }

  /** A single file without symbols, whose descriptor has no lookup table. */
  lemma ReadLone(img: Image, base: nat, buf: seq<Byte>, f: ImportFile, l: Layout, c: Cursor, o: nat, end: nat)
    requires Installed(img, base, buf) && FitFile(f) && Short([f]) && l.base == base && l.thunks == 1
    requires !f.byway && f.names == [] && Ranges([f], base, buf, end) && OriginalAt(img, o, OriginalOf(f))
    requires FileWritten(buf, f, l, c) && Holds(buf, c.table + DESCRIPTOR, Words(LAST, 4))
    ensures img.Files(base + c.table, o, base, end) == Some([f]) <==> LoneIsRead(img, f)
  {
    hide Image.Number, Image.FileName, Image.FileSymbols, FileWritten, Installed, SymbolsAt, Words, Holds;
    hide Image.ThunksOf, FitFile, Short, LoneIsRead;
    assert f in [f];
    PlacesInside(img, base, buf, f, l, c);
    DescriptorRead(img, base, buf, f, l, c);
    ReadFileName(img, base, buf, f, l, c);
    ReadEmpty(img, base, buf, c.table + DESCRIPTOR, o + DESCRIPTOR, end);
    LoneOrEmpty(img, f);
    if f.rvaFirstThunk != 0 {
      LoneSymbols(img, base + c.table, o, f);
      var r := img.File(base + c.table, o, base, end);
      if r.Some? {
        assert r.value == f.(names := img.FileSymbols(base + c.table, o).value);
        assert ([r.value] + [])[0] == r.value && [f] + [] == [f];
      }
    }
  }

  /** Reading what was written gives back the list, with the originals in the image, if and only if it has not exactly
      one thunk, or the address table of its one file has no symbols either. */
  lemma ReadBackIff(img: Image, base: nat, buf: seq<Byte>, files: seq<ImportFile>, l: Layout, c: Cursor, o: nat,
                    end: nat)
    requires Installed(img, base, buf) && Fit(files) && Short(files) && l.base == base && l.thunks == Thunks(files)
    requires Written(buf, files, l, c)
    requires Ranges(files, base, buf, end) && OriginalsAt(img, o, Originals(files))
    ensures img.Files(base + c.table, o, base, end) == Some(Reloaded(files, base + c.bound)) <==>
            ComesBack(img, files)
  {
    hide FileWritten, Image.Files, OriginalAt, LoneIsRead, Installed;
    if l.thunks != 1 {
      assert files != [] ==> l.thunks >= ThunkCount(files[0]) >= 1;
      ReadFiles(img, base, buf, files, l, c, o, end);
    } else {
      var f := files[0];
      assert f in files && files == [f] && !f.byway && f.names == [];
      PremisesCons(files, base, buf, end);
      OriginalsAtCons(img, o, files);
      ReadLone(img, base, buf, f, l, c, o, end);
      assert Reloaded(files, base + c.bound) == [f];
    }
  }

  // -------- Reset after the list was written and read

  /** The symbol is told apart from what it was originally: it has a name, or it is the original ordinal. */
  predicate KeepsOriginal(n: ImportName) {
    n.name.Some? || (n.orig.None? && n.hint == 0 && n.nOrig == n.nOrdinal % 0x1_0000)
  }

  predicate NamesKeepOriginals(names: seq<ImportName>) {
    forall n <- names :: KeepsOriginal(n)
  }

  predicate AllKeepOriginals(files: seq<ImportFile>) {
    forall f <- files :: !f.byway ==> NamesKeepOriginals(f.names)
  }

  lemma {:induction false} ReloadedNamesOriginals(names: seq<ImportName>)
    ensures OriginalNames(ReloadedNames(names)) == OriginalNames(names) <==> NamesKeepOriginals(names)
  {
    if names != [] {
      ReloadedNamesOriginals(names[1..]);
      var o, r := OriginalNames(names), OriginalNames(ReloadedNames(names));
      assert ReloadedNames(names)[1..] == ReloadedNames(names[1..]);
      assert o[1..] == OriginalNames(names[1..]) && r[1..] == OriginalNames(ReloadedNames(names[1..]));
      assert r == [r[0]] + r[1..] && o == [o[0]] + o[1..];
      assert r[0] == o[0] <==> KeepsOriginal(names[0]);
      assert NamesKeepOriginals(names) <==> KeepsOriginal(names[0]) && NamesKeepOriginals(names[1..]) by {
        assert names[0] in names && forall n <- names :: n == names[0] || n in names[1..];
        assert forall n <- names[1..] :: n in names;
      }
    }
  }

  lemma ConsEqual<T>(x: T, a: seq<T>, y: T, b: seq<T>)
    ensures [x] + a == [y] + b <==> x == y && a == b
  {
    assert ([x] + a)[0] == x && ([x] + a)[1..] == a && ([y] + b)[0] == y && ([y] + b)[1..] == b;
  }

  lemma KeepOriginalsCons(files: seq<ImportFile>)
    requires files != []
    ensures AllKeepOriginals(files) <==>
            (!files[0].byway ==> NamesKeepOriginals(files[0].names)) && AllKeepOriginals(files[1..])
  {
    hide NamesKeepOriginals;
    assert files[0] in files && forall g <- files :: g == files[0] || g in files[1..];
    assert forall g <- files[1..] :: g in files;
  }

  /** Writing and reading the list keeps the originals if and only if it does so for every symbol. */
  lemma {:induction false} ReloadedOriginals(files: seq<ImportFile>, first: nat)
    ensures Originals(Reloaded(files, first)) == Originals(files) <==> AllKeepOriginals(files)
    decreases |files|
  {
    if files != [] {
      hide NamesKeepOriginals, AllKeepOriginals, OriginalNames;
      var f, rest := files[0], files[1..];
      var next := first + THUNK * |BoundThunks(f)|;
      ReloadedOriginals(rest, next);
      ReloadedNamesOriginals(f.names);
      KeepOriginalsCons(files);
      assert Reloaded(files, first)[1..] == Reloaded(rest, next);
      if f.byway {
        assert Originals(Reloaded(files, first)) == Originals(Reloaded(rest, next));
        assert Originals(files) == Originals(rest);
      } else {
        var x, y := OriginalOf(ReloadedFile(f, first)), OriginalOf(f);
        assert Originals(Reloaded(files, first)) == [x] + Originals(Reloaded(rest, next));
        assert Originals(files) == [y] + Originals(rest);
        assert x == y <==> NamesKeepOriginals(f.names);
        ConsEqual(x, Originals(Reloaded(rest, next)), y, Originals(rest));
      }
    } else {
      assert AllKeepOriginals(files);
    }
  }

  /** A reset of the list that was written and read gives the original list back if and only if no symbol lost its
      original. */
  lemma ResetAfterReloadIff(files: seq<ImportFile>, first: nat)
    requires Loaded(Originals(files)) && AllKnown(Originals(files))
    ensures EditFrom(Reloaded(files, first), RESET, 0, 0).items == Restored(Originals(files)) <==>
            AllKeepOriginals(files)
  {
    hide AllKeepOriginals, Restored, Originals, Reloaded, EditFrom;
    var r := Reloaded(files, first);
    ReloadedOriginals(files, first);
    if AllKeepOriginals(files) {
      ResetRestores(r, 0);
    } else {
      EditKeepsOriginals(r, RESET, 0, 0);
      OriginalsRestored(Originals(files));
    }
  }

  // -------- The originals stay in the image

  /** The bytes of the old image are where they were. */
  predicate Extends(was: Image, now: Image) {
    && |was.bytes| <= |now.bytes|
    && forall k {:trigger now.bytes[k]} :: 0 <= k < |was.bytes| && was.bytes[k].Some? ==> now.bytes[k] == was.bytes[k]
  }

  lemma NumberKept(was: Image, now: Image, rva: nat, k: nat)
    requires Extends(was, now) && was.Number(rva, k).Some?
    ensures now.Number(rva, k) == was.Number(rva, k)
  {
    hide FromLe;
    assert forall j :: rva <= j < rva + k ==> now.bytes[j] == was.bytes[j];
    assert seq(k, j requires 0 <= j < k => now.bytes[rva + j].value)
        == seq(k, j requires 0 <= j < k => was.bytes[rva + j].value);
  }

  lemma {:induction false} NameKept(was: Image, now: Image, rva: nat)
    requires Extends(was, now) && was.NameAt(rva).Some?
    ensures now.NameAt(rva) == was.NameAt(rva)
    decreases |was.bytes| - rva
  {
    if was.bytes[rva].value != 0 {
      NameKept(was, now, rva + 1);
    }
  }

  lemma {:induction false} SymbolsKept(was: Image, now: Image, look: nat, names: seq<OriginalName>)
    requires Extends(was, now) && SymbolsAt(was, look, names) && forall n <- names :: n.Known()
    ensures SymbolsAt(now, look, names)
    decreases |names|
  {
    hide Image.Number, Image.NameAt;
    if names != [] {
      var thunk := was.Number(look, THUNK).value;
      NumberKept(was, now, look, THUNK);
      assert names[0] in names && forall n <- names[1..] :: n in names;
      if thunk < ORDINAL_FLAG {
        NameKept(was, now, thunk + 2);
      }
      SymbolsKept(was, now, look + THUNK, names[1..]);
    }
  }

  lemma OriginalKept(was: Image, now: Image, o: nat, f: OriginalFile)
    requires Extends(was, now) && OriginalAt(was, o, f) && f.Known()
    ensures OriginalAt(now, o, f)
  {
    hide Image.Number, Image.NameAt, SymbolsAt;
    NumberKept(was, now, o, 4);
    NumberKept(was, now, o + 12, 4);
    NumberKept(was, now, o + 16, 4);
    NameKept(was, now, was.Number(o + 12, 4).value);
    SymbolsKept(was, now, was.ThunksOf(o).value, f.names);
  }

  lemma {:induction false} OriginalsKept(was: Image, now: Image, o: nat, fs: seq<OriginalFile>)
    requires Extends(was, now) && OriginalsAt(was, o, fs) && AllKnown(fs)
    ensures OriginalsAt(now, o, fs)
    decreases |fs|
  {
    hide OriginalAt;
    if fs != [] {
      assert fs[0] in fs && forall f <- fs[1..] :: f in fs;
      OriginalKept(was, now, o, fs[0]);
      OriginalsKept(was, now, o + DESCRIPTOR, fs[1..]);
    }
  }

  // -------- From one image to the next, and back

  lemma {:induction false} EditsKeepOriginals(files: seq<ImportFile>, edits: seq<Edit>)
    requires AllStop(edits)
    ensures Originals(AfterEdits(files, edits)) == Originals(files)
    decreases |edits|
  {
    if edits != [] {
      EditKeepsOriginals(files, edits[0].cb, 0, edits[0].limit);
      EditsKeepOriginals(EditFrom(files, edits[0].cb, 0, edits[0].limit).items, edits[1..]);
    }
  }

  /** The directory that was written is in the section. */
  lemma DirectoryMapped(img: Image, base: nat, buf: seq<Byte>, files: seq<ImportFile>, l: Layout, c: Cursor)
    requires Installed(img, base, buf) && Fit(files) && Written(buf, files, l, c)
    ensures img.Mapped(base + c.table)
  {
    hide Words, FileBytes, FileThunks, Descriptor, FitFile;
    MappedAt(img, base, buf, c.table);
  }

  lemma MappedKept(was: Image, now: Image, rva: nat)
    requires Extends(was, now) && was.Mapped(rva)
    ensures now.Mapped(rva)
  {
  }

  /** An image that was never edited is read, edited in any way, and written; the new image keeps the old bytes and has
      the tables in a new section.  Reading that, and resetting it, gives the list of the first image back if and only
      if the edits left every symbol by name or by its original ordinal. */
  lemma UndoAcrossWriteIff(was: Image, d: nat, edits: seq<Edit>, img: Image, base: nat, buf: seq<Byte>, l: Layout,
                           c: Cursor, end: nat)
    requires AllStop(edits) && was.Imports(d, 0, 0, 0).Some? && AllKnown(Originals(was.Imports(d, 0, 0, 0).value))
    requires var files := AfterEdits(was.Imports(d, 0, 0, 0).value, edits);
      && Fit(files) && Short(files) && Written(buf, files, l, c) && Ranges(files, base, buf, end)
      && l.base == base && l.thunks == Thunks(files) && ComesBack(img, files)
    requires Installed(img, base, buf) && Extends(was, img)
    ensures var files := was.Imports(d, 0, 0, 0).value;
      var read := img.Imports(base + c.table, d, base, end);
      && read.Some?
      && (EditFrom(read.value, RESET, 0, 0).items == files <==> AllKeepOriginals(AfterEdits(files, edits)))
  {
    hide Image.Files, Installed, Extends, Ranges, Written, ComesBack, AllKeepOriginals, EditFrom, AfterEdits;
    hide OriginalsAt, Fit, Short, Thunks, Originals, Reloaded;
    var files := was.Imports(d, 0, 0, 0).value;
    var edited := AfterEdits(files, edits);
    ReadIsFresh(was, d, 0);
    EditsKeepOriginals(files, edits);
    OriginalsKept(was, img, d, Originals(files));
    MappedKept(was, img, d);
    DirectoryMapped(img, base, buf, edited, l, c);
    ReadBackIff(img, base, buf, edited, l, c, d, end);
    ResetAfterReloadIff(edited, base + c.bound);
  }
}
