/** The import tables in the output section: their bytes, and where they lie (detours/image.cpp). */
module ImageLayout {
  import opened ByteBuffer
  import opened ImageImports
  import opened Wrappers

  const THUNK: nat := 8
  const DESCRIPTOR: nat := 20
  const ORDINAL_FLAG: nat := 0x8000_0000_0000_0000

  // -------- The bytes of the tables

  /** The characters are bytes, and none is the zero that ends a string. */
  predicate Text(s: string) {
    forall k :: 0 <= k < |s| ==> 0 < s[k] as int < 256
  }

  function Chars0(s: string): (b: seq<Byte>)
    requires Text(s)
    ensures |b| == |s| + 1
  {
    if s == "" then [0] else [s[0] as int] + Chars0(s[1..])
  }

  /** Strings take an even number of bytes. */
  function Padded(b: seq<Byte>): (p: seq<Byte>)
    ensures |p| == Even(|b|) && b <= p
  {
    if |b| % 2 == 1 then b + [0] else b
  }

  /** What fits the fields of the tables. */
  predicate FitName(n: ImportName) {
    n.hint < 0x1_0000 && n.nOrdinal < DWORD_LIMIT && (n.name.Some? ==> Text(n.name.value))
  }

  predicate FitFile(f: ImportFile) {
    f.name.Some? && Text(f.name.value) && f.rvaFirstThunk < DWORD_LIMIT && f.forwarderChain < DWORD_LIMIT
    && forall n <- f.names :: FitName(n)
  }

  predicate Fit(files: seq<ImportFile>) {
    forall f <- files :: FitFile(f)
  }

  function SymbolBytes(n: ImportName): (b: seq<Byte>)
    requires FitName(n)
    ensures |b| == SymbolSize(n)
  {
    if n.name.None? then [] else Padded(Le(n.hint, 2) + Chars0(n.name.value))
  }

  /** The thunks of the symbols, the strings being laid out from `rva` on, and the zero that ends them. */
  function SymbolThunks(names: seq<ImportName>, rva: nat): (t: seq<nat>)
    ensures |t| == |names| + 1
  {
    if names == [] then [0]
    else
      [if names[0].name.Some? then rva else ORDINAL_FLAG + names[0].nOrdinal]
      + SymbolThunks(names[1..], rva + SymbolSize(names[0]))
  }

  function SymbolsBytes(names: seq<ImportName>): (b: seq<Byte>)
    requires forall n <- names :: FitName(n)
    ensures |b| == SymbolsSize(names)
  {
    if names == [] then []
    else SymbolBytes(names[0]) + SymbolsBytes(names[1..])
  }

  /** A byway imports ordinal 1. */
  const BYWAY: seq<nat> := [ORDINAL_FLAG + 1, 0]

  function FileThunks(f: ImportFile, rva: nat): (t: seq<nat>)
    requires f.name.Some?
    ensures |t| == ThunkCount(f)
  {
    if f.byway then BYWAY else SymbolThunks(f.names, rva + NameSize(f.name.value))
  }

  function BoundThunks(f: ImportFile): seq<nat> {
    if f.byway then BYWAY else []
  }

  function FileBytes(f: ImportFile): (b: seq<Byte>)
    requires FitFile(f)
    ensures |b| == FileSize(f)
  {
    Padded(Chars0(f.name.value)) + if f.byway then [] else SymbolsBytes(f.names)
  }

  /** Where the tables are: the lookup and bound tables of `thunks` entries each, `size` bytes of names, and the
      descriptors. */
  datatype Layout = Layout(base: nat, thunks: nat, size: nat, lookup: nat, bound: nat, chars: nat, table: nat)

  /** Where the next entry of each table goes. */
  datatype Cursor = Cursor(lookup: nat, bound: nat, chars: nat, table: nat) {
    function After(f: ImportFile): Cursor
      requires f.name.Some?
    {
      Cursor(lookup + THUNK * ThunkCount(f), bound + THUNK * |BoundThunks(f)|, chars + FileSize(f), table + DESCRIPTOR)
    }
  }

  /** The five fields of a descriptor.  With room for one thunk only, CImageThunks gives no address. */
  function Descriptor(f: ImportFile, l: Layout, c: Cursor): (d: seq<nat>)
    ensures |d| == 5
  {
    [if f.byway || l.thunks > 1 then l.base + c.lookup else 0, 0, f.forwarderChain, l.base + c.chars,
     if f.byway then l.base + c.bound else f.rvaFirstThunk]
  }

  const LAST: seq<nat> := [0, 0, 0, 0, 0]

  /** All entries of one file are in the buffer. */
  predicate FileWritten(buf: seq<Byte>, f: ImportFile, l: Layout, c: Cursor)
    requires FitFile(f)
  {
    Holds(buf, c.lookup, Words(FileThunks(f, l.base + c.chars), THUNK))
    && Holds(buf, c.bound, Words(BoundThunks(f), THUNK))
    && Holds(buf, c.chars, FileBytes(f))
    && Holds(buf, c.table, Words(Descriptor(f, l, c), 4))
  }

  /** The files are in the buffer one after another, and an empty descriptor ends their table. */
  predicate Written(buf: seq<Byte>, files: seq<ImportFile>, l: Layout, c: Cursor)
    requires Fit(files)
  {
    if files == [] then Holds(buf, c.table, Words(LAST, 4))
    else FileWritten(buf, files[0], l, c) && Written(buf, files[1..], l, c.After(files[0]))
  }
}
