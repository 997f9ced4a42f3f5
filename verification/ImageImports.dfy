/** The import list of an image, its editing by callbacks, and the reset to the original imports (detours/image.cpp). */
module ImageImports {
  import opened Wrappers

  /** CImageImportName: the symbol as it is now, and as it was in the original image. */
  datatype ImportName = ImportName(hint: nat, nOrig: nat, nOrdinal: nat, orig: Option<string>, name: Option<string>)

  /** CImageImportFile; the byways are the files that were added. */
  datatype ImportFile = ImportFile(byway: bool, names: seq<ImportName>, rvaFirstThunk: nat, forwarderChain: nat,
                                   orig: Option<string>, name: Option<string>)

  const MAX_STRING: nat := 8192

  /** DuplicateString gives up on strings of 8192 characters and more. */
  function Duplicate(s: string): Option<string> {
    if |s| < MAX_STRING then Some(s) else None
  }

  // -------- Callbacks

  /** What a callback answers: it failed, a null pointer, the pointer it was given, or another string. */
  datatype Answer = Abort | Null | Same | Name(s: string)

  datatype SymbolAnswer = SymbolAbort | SymbolAnswer(name: Answer, ordinal: nat)

  /** The callbacks; a missing one is a null pointer.  The first argument of each is the number of callbacks made
      before, so that it may answer as it likes each time. */
  datatype Callbacks = Callbacks(
    byway: Option<(nat, Option<string>) -> Answer>,
    file: Option<(nat, Option<string>, Option<string>) -> Answer>,
    symbol: Option<(nat, ImportName) -> SymbolAnswer>,
    commit: Option<nat -> bool>)
  {
    /** From callback `limit` on no more byways are inserted; without such a limit the loops would not end. */
    ghost predicate StopsAt(limit: nat) {
      byway.Some? ==> forall k :: k >= limit ==> !byway.value(k, None).Name?
    }
  }

  function CallsLeft(limit: nat, k: nat): nat {
    if k < limit then limit - k else 0
  }

  /** A pass over part of a list: whether it succeeded, the items it leaves, and the callbacks made so far. */
  datatype Pass<T> = Pass(ok: bool, items: seq<T>, calls: nat) {
    function After(done: seq<T>): Pass<T> {
      this.(items := done + items)
    }
  }

  // -------- What one pass does

  /** One symbol: a name goes before an ordinal, and a new name clears the ordinal. */
  function EditName(n: ImportName, a: SymbolAnswer): (bool, ImportName) {
    match a
    case SymbolAbort => (false, n)
    case SymbolAnswer(Abort, _) => (false, n)
    case SymbolAnswer(Name(s), _) => (Duplicate(s).Some?, n.(nOrdinal := 0, name := Duplicate(s)))
    case SymbolAnswer(_, ordinal) =>
      if (a.name.Same? && n.name.Some?) || ordinal == 0 then (true, n)
      else (true, n.(nOrdinal := ordinal, name := None))
  }

  function EditNames(names: seq<ImportName>, cb: Callbacks, k: nat): (r: Pass<ImportName>)
    ensures r.calls >= k
  {
    if names == [] || cb.symbol.None? then Pass(true, names, k)
    else
      var e := EditName(names[0], cb.symbol.value(k, names[0]));
      if !e.0 then Pass(false, [e.1] + names[1..], k + 1)
      else EditNames(names[1..], cb, k + 1).After([e.1])
  }

  lemma EditNamesAt(names: seq<ImportName>, n: nat, cb: Callbacks, k: nat)
    requires n < |names| && cb.symbol.Some?
    ensures var e := EditName(names[n], cb.symbol.value(k, names[n]));
      var now := names[n := e.1];
      EditNames(names[n..], cb, k).After(names[..n])
        == if e.0 then EditNames(now[n + 1..], cb, k + 1).After(now[..n + 1]) else Pass(false, now, k + 1)
  {
    var e := EditName(names[n], cb.symbol.value(k, names[n]));
    var now, done, rest := names[n := e.1], names[..n], names[n..];
    assert rest[0] == names[n] && rest[1..] == names[n + 1..] == now[n + 1..];
    assert now[..n + 1] == done + [e.1] && now == done + ([e.1] + rest[1..]);
    var later := EditNames(rest[1..], cb, k + 1).items;
    assert done + ([e.1] + later) == (done + [e.1]) + later;
  }

  lemma EditNamesEnd(names: seq<ImportName>, cb: Callbacks, k: nat)
    ensures EditNames([], cb, k) == Pass(true, [], k)
    ensures cb.symbol.None? ==> EditNames(names, cb, k) == Pass(true, names, k)
  {
  }

  /** The name of a file after the file callback. */
  function EditFileName(f: ImportFile, cb: Callbacks, k: nat): (bool, Option<string>) {
    if cb.file.None? then (true, f.name)
    else
      match cb.file.value(k, f.orig, f.name)
      case Abort => (false, f.name)
      case Name(s) => (Duplicate(s).Some?, Duplicate(s))
      case _ => (true, f.name)
  }

  /** A file of the image itself: its name, then its symbols. */
  function EditFile(f: ImportFile, cb: Callbacks, k: nat): (r: Pass<ImportFile>)
    ensures r.calls >= k && |r.items| == 1
  {
    var e := EditFileName(f, cb, k);
    var k' := if cb.file.Some? then k + 1 else k;
    var f' := f.(name := e.1);
    if !e.0 then Pass(false, [f'], k')
    else
      var p := EditNames(f.names, cb, k');
      Pass(p.ok, [f'.(names := p.items)], p.calls)
  }

  /** A byway is kept, renamed or dropped. */
  function EditByway(f: ImportFile, cb: Callbacks, k: nat): (r: Pass<ImportFile>)
    ensures r.calls >= k && |r.items| <= 1
  {
    if cb.byway.None? then Pass(true, [f], k)
    else
      match cb.byway.value(k, f.name)
      case Abort => Pass(false, [f], k + 1)
      case Null => Pass(true, [], k + 1)
      case Same => Pass(true, if f.name.None? then [] else [f], k + 1)
      case Name(s) => Pass(Duplicate(s).Some?, [f.(name := Duplicate(s))], k + 1)
  }

  function EditHead(f: ImportFile, cb: Callbacks, k: nat): (r: Pass<ImportFile>)
    ensures r.calls >= k && |r.items| <= 1 && (!f.byway ==> |r.items| == 1)
  {
    if f.byway then EditByway(f, cb, k) else EditFile(f, cb, k)
  }

  function NewByway(name: string): ImportFile {
    ImportFile(true, [], 0, 0, None, Some(name))
  }

  /** The pass over the files from some place on: before each of them, and after the last, any byways inserted. */
  function EditFrom(files: seq<ImportFile>, cb: Callbacks, k: nat, ghost limit: nat): (r: Pass<ImportFile>)
    requires cb.StopsAt(limit)
    decreases CallsLeft(limit, k), |files|
  {
    if cb.byway.Some? && cb.byway.value(k, None).Abort? then Pass(false, files, k + 1)
    else if cb.byway.Some? && cb.byway.value(k, None).Name? then
      var s := cb.byway.value(k, None).s;
      if Duplicate(s).None? then Pass(false, files, k + 1)
      else EditFrom(files, cb, k + 1, limit).After([NewByway(s)])
    else
      var k' := if cb.byway.Some? then k + 1 else k;
      if files == [] then Pass(true, [], k')
      else
        var h := EditHead(files[0], cb, k');
        if !h.ok then Pass(false, h.items + files[1..], h.calls)
        else EditFrom(files[1..], cb, h.calls, limit).After(h.items)
  }

  lemma ThreeParts(files: seq<ImportFile>, i: nat, added: seq<ImportFile>, rest: seq<ImportFile>)
    requires i <= |files|
    ensures var now := files[..i] + added + rest;
      now[..i + |added|] == files[..i] + added && now[i + |added|..] == rest
      && forall t :: now[..i + |added|] + t == files[..i] + (added + t)
  {
  }

  lemma EditFromStart(files: seq<ImportFile>, cb: Callbacks, limit: nat)
    requires cb.StopsAt(limit)
    ensures EditFrom(files, cb, 0, limit) == EditFrom(files[0..], cb, 0, limit).After(files[..0])
  {
    assert files[0..] == files && [] + EditFrom(files, cb, 0, limit).items == EditFrom(files, cb, 0, limit).items;
  }

  /** A turn of the loops of EditImports in which a byway is inserted, or the callback fails. */
  lemma EditFromInsert(files: seq<ImportFile>, i: nat, cb: Callbacks, k: nat, limit: nat)
    requires cb.StopsAt(limit) && i <= |files| && cb.byway.Some?
    ensures var a, p := cb.byway.value(k, None), EditFrom(files[i..], cb, k, limit).After(files[..i]);
      (a.Abort? || (a.Name? && Duplicate(a.s).None?) ==> p == Pass(false, files, k + 1))
      && (a.Name? && Duplicate(a.s).Some? ==>
            var now := files[..i] + [NewByway(a.s)] + files[i..];
            p == EditFrom(now[i + 1..], cb, k + 1, limit).After(now[..i + 1]))
  {
    var a := cb.byway.value(k, None);
    assert files[..i] + files[i..] == files;
    if a.Name? && Duplicate(a.s).Some? {
      ThreeParts(files, i, [NewByway(a.s)], files[i..]);
    }
  }

  /** A turn of the loops in which no byway is inserted. */
  lemma EditFromHead(files: seq<ImportFile>, i: nat, cb: Callbacks, k: nat, limit: nat)
    requires cb.StopsAt(limit) && i <= |files|
    requires cb.byway.Some? ==> var a := cb.byway.value(k, None); a.Null? || a.Same?
    ensures var k', p := if cb.byway.Some? then k + 1 else k, EditFrom(files[i..], cb, k, limit).After(files[..i]);
      if i == |files| then p == Pass(true, files, k')
      else
        var h := EditHead(files[i], cb, k');
        var now, j := files[..i] + h.items + files[i + 1..], i + |h.items|;
        p == if h.ok then EditFrom(now[j..], cb, h.calls, limit).After(now[..j]) else Pass(false, now, h.calls)
  {
    var k' := if cb.byway.Some? then k + 1 else k;
    if i == |files| {
      assert files[..i] + [] == files;
    } else {
      var h := EditHead(files[i], cb, k');
      assert files[i..][0] == files[i] && files[i..][1..] == files[i + 1..];
      ThreeParts(files, i, h.items, files[i + 1..]);
      assert files[..i] + (h.items + files[i + 1..]) == files[..i] + h.items + files[i + 1..];
    }
  }

  /** The whole edit: the pass, and the commit callback. */
  function Edited(files: seq<ImportFile>, cb: Callbacks, ghost limit: nat): Pass<ImportFile>
    requires cb.StopsAt(limit)
  {
    var p := EditFrom(files, cb, 0, limit);
    if p.ok && cb.commit.Some? then p.(ok := cb.commit.value(p.calls), calls := p.calls + 1) else p
  }

  // -------- The originals

  /** What an edit never changes: the original symbols of the files of the image. */
  datatype OriginalName = OriginalName(hint: nat, nOrig: nat, orig: Option<string>) {
    /** Reset can tell what the symbol was. */
    predicate Known() {
      orig.Some? || nOrig != 0
    }
    function Restored(): ImportName {
      ImportName(hint, nOrig, if orig.Some? then 0 else nOrig, orig, orig)
    }
  }

  function RestoredNames(names: seq<OriginalName>): seq<ImportName> {
    seq(|names|, k requires 0 <= k < |names| => names[k].Restored())
  }

  datatype OriginalFile = OriginalFile(names: seq<OriginalName>, rvaFirstThunk: nat, forwarderChain: nat,
                                       orig: Option<string>)
  {
    predicate Known() {
      forall n <- names :: n.Known()
    }
    function Restored(): ImportFile {
      ImportFile(false, RestoredNames(names), rvaFirstThunk, forwarderChain, orig, orig)
    }
  }

  function OriginalNames(names: seq<ImportName>): seq<OriginalName> {
    if names == [] then []
    else [OriginalName(names[0].hint, names[0].nOrig, names[0].orig)] + OriginalNames(names[1..])
  }

  function OriginalOf(f: ImportFile): OriginalFile {
    OriginalFile(OriginalNames(f.names), f.rvaFirstThunk, f.forwarderChain, f.orig)
  }

  function Originals(files: seq<ImportFile>): seq<OriginalFile> {
    if files == [] then []
    else (if files[0].byway then [] else [OriginalOf(files[0])]) + Originals(files[1..])
  }

  /** The list as a fresh image would give it. */
  function Restored(originals: seq<OriginalFile>): seq<ImportFile> {
    seq(|originals|, k requires 0 <= k < |originals| => originals[k].Restored())
  }

  lemma {:induction false} OriginalsAppend(a: seq<ImportFile>, b: seq<ImportFile>)
    ensures Originals(a + b) == Originals(a) + Originals(b)
  {
    if a == [] {
      assert a + b == b;
    } else {
      assert (a + b)[1..] == a[1..] + b;
      OriginalsAppend(a[1..], b);
    }
  }

  lemma {:induction false} EditNamesKeepOriginals(names: seq<ImportName>, cb: Callbacks, k: nat)
    ensures OriginalNames(EditNames(names, cb, k).items) == OriginalNames(names)
  {
    if names != [] && cb.symbol.Some? {
      var e := EditName(names[0], cb.symbol.value(k, names[0]));
      EditNamesKeepOriginals(names[1..], cb, k + 1);
      var rest := if e.0 then EditNames(names[1..], cb, k + 1).items else names[1..];
      assert EditNames(names, cb, k).items == [e.1] + rest;
      assert ([e.1] + rest)[1..] == rest;
    }
  }

  lemma EditHeadKeepsOriginals(f: ImportFile, cb: Callbacks, k: nat)
    ensures Originals(EditHead(f, cb, k).items) == Originals([f])
  {
    if f.byway {
    } else {
      EditNamesKeepOriginals(f.names, cb, if cb.file.Some? then k + 1 else k);
    }
  }

  /** No edit, complete or broken off, changes the originals or their order. */
  lemma {:induction false} EditKeepsOriginals(files: seq<ImportFile>, cb: Callbacks, k: nat, limit: nat)
    requires cb.StopsAt(limit)
    ensures Originals(EditFrom(files, cb, k, limit).items) == Originals(files)
    decreases CallsLeft(limit, k), |files|
  {
    if cb.byway.Some? && cb.byway.value(k, None).Abort? {
    } else if cb.byway.Some? && cb.byway.value(k, None).Name? {
      var s := cb.byway.value(k, None).s;
      if Duplicate(s).Some? {
        EditKeepsOriginals(files, cb, k + 1, limit);
        OriginalsAppend([NewByway(s)], EditFrom(files, cb, k + 1, limit).items);
      }
    } else if files != [] {
      var h := EditHead(files[0], cb, if cb.byway.Some? then k + 1 else k);
      EditHeadKeepsOriginals(files[0], cb, if cb.byway.Some? then k + 1 else k);
      OriginalsAppend([files[0]], files[1..]);
      assert [files[0]] + files[1..] == files;
      if h.ok {
        EditKeepsOriginals(files[1..], cb, h.calls, limit);
        OriginalsAppend(h.items, EditFrom(files[1..], cb, h.calls, limit).items);
      } else {
        OriginalsAppend(h.items, files[1..]);
      }
    }
  }

  // -------- Reset

  function ResetByway(k: nat, name: Option<string>): Answer {
    Null
  }

  function ResetFile(k: nat, orig: Option<string>, name: Option<string>): Answer {
    if orig.Some? then Name(orig.value) else Null
  }

  function ResetSymbol(k: nat, n: ImportName): SymbolAnswer {
    SymbolAnswer(if n.orig.Some? then Name(n.orig.value) else Null, n.nOrig)
  }

  const RESET := Callbacks(Some(ResetByway), Some(ResetFile), Some(ResetSymbol), None)

  /** The strings of the original image were themselves made by DuplicateString, and its files have names. */
  predicate Loaded(originals: seq<OriginalFile>) {
    forall f <- originals ::
      f.orig.Some? && |f.orig.value| < MAX_STRING && forall n <- f.names :: n.orig.Some? ==> |n.orig.value| < MAX_STRING
  }

  predicate AllKnown(originals: seq<OriginalFile>) {
    forall f <- originals :: f.Known()
  }

  lemma {:induction false} ResetNames(names: seq<ImportName>, k: nat)
    requires forall n <- OriginalNames(names) :: n.Known()
    requires forall n <- OriginalNames(names) :: n.orig.Some? ==> |n.orig.value| < MAX_STRING
    ensures EditNames(names, RESET, k).ok
    ensures EditNames(names, RESET, k).items == RestoredNames(OriginalNames(names))
  {
    if names != [] {
      var o := OriginalNames(names);
      assert o[0] == OriginalName(names[0].hint, names[0].nOrig, names[0].orig) && o[1..] == OriginalNames(names[1..]);
      assert o[0].Known() && forall n <- o[1..] :: n in o;
      ResetNames(names[1..], k + 1);
      assert EditName(names[0], ResetSymbol(k, names[0])) == (true, o[0].Restored());
    }
  }

  lemma ResetHead(f: ImportFile, k: nat)
    requires Loaded(Originals([f])) && AllKnown(Originals([f]))
    ensures EditHead(f, RESET, k).ok
    ensures EditHead(f, RESET, k).items == Restored(Originals([f]))
  {
    if !f.byway {
      var o := OriginalOf(f);
      assert Originals([f]) == [o] && o in Originals([f]);
      ResetNames(f.names, k + 1);
      assert EditFileName(f, RESET, k) == (true, f.orig);
    }
  }

  lemma RestoredAppend(a: seq<OriginalFile>, b: seq<OriginalFile>)
    ensures Restored(a + b) == Restored(a) + Restored(b)
  {
  }

  /** Reset drops the byways and restores every file, name and ordinal. */
  lemma {:induction false} ResetRestores(files: seq<ImportFile>, k: nat)
    requires Loaded(Originals(files)) && AllKnown(Originals(files))
    ensures EditFrom(files, RESET, k, 0).ok
    ensures EditFrom(files, RESET, k, 0).items == Restored(Originals(files))
    decreases |files|
  {
    if files != [] {
      var head, rest := Originals([files[0]]), Originals(files[1..]);
      OriginalsAppend([files[0]], files[1..]);
      assert [files[0]] + files[1..] == files;
      assert forall o <- head + rest :: o in Originals(files);
      assert forall o <- head :: o in head + rest;
      assert forall o <- rest :: o in head + rest;
      ResetHead(files[0], k + 1);
      ResetRestores(files[1..], EditHead(files[0], RESET, k + 1).calls);
      RestoredAppend(head, rest);
    }
  }

  // -------- Runs of edits

  datatype Edit = Edit(cb: Callbacks, ghost limit: nat)

  ghost predicate AllStop(edits: seq<Edit>) {
    forall e <- edits :: e.cb.StopsAt(e.limit)
  }

  ghost function AfterEdits(files: seq<ImportFile>, edits: seq<Edit>): seq<ImportFile>
    requires AllStop(edits)
    decreases |edits|
  {
    if edits == [] then files
    else AfterEdits(EditFrom(files, edits[0].cb, 0, edits[0].limit).items, edits[1..])
  }

  /** A list as it is in an image nobody edited. */
  predicate Fresh(files: seq<ImportFile>) {
    files == Restored(Originals(files)) && Loaded(Originals(files))
  }

  /** Whatever edits were made, completed or broken off, a reset gives the fresh list back. */
  lemma {:induction false} ResetUndoesEdits(files: seq<ImportFile>, now: seq<ImportFile>, edits: seq<Edit>)
    requires AllStop(edits)
    requires Fresh(files) && AllKnown(Originals(files)) && Originals(now) == Originals(files)
    ensures EditFrom(AfterEdits(now, edits), RESET, 0, 0).ok
    ensures EditFrom(AfterEdits(now, edits), RESET, 0, 0).items == files
    decreases |edits|
  {
    if edits == [] {
      ResetRestores(now, 0);
    } else {
      EditKeepsOriginals(now, edits[0].cb, 0, edits[0].limit);
      ResetUndoesEdits(files, EditFrom(now, edits[0].cb, 0, edits[0].limit).items, edits[1..]);
    }
  }

  /** An edit that gives every symbol a name. */
  const RENAME := Callbacks(None, None, Some((k, n) => SymbolAnswer(Name("x"), 0)), None)

  lemma ConsDiffers<T>(a: T, s: seq<T>, whole: seq<T>)
    requires whole != [] && (a != whole[0] || s != whole[1..])
    ensures [a] + s != whole
  {
    assert ([a] + s)[0] == a && ([a] + s)[1..] == s;
  }

  lemma EditNamesCons(n: ImportName, rest: seq<ImportName>, cb: Callbacks, k: nat)
    requires cb.symbol.Some? && EditName(n, cb.symbol.value(k, n)).0
    ensures EditNames([n] + rest, cb, k)
         == EditNames(rest, cb, k + 1).After([EditName(n, cb.symbol.value(k, n)).1])
  {
    assert ([n] + rest)[1..] == rest;
  }

  lemma {:induction false} RenameNamesSticks(names: seq<ImportName>, k: nat, k': nat)
    requires names == RestoredNames(OriginalNames(names))
    requires forall n <- OriginalNames(names) :: n.orig.Some? ==> |n.orig.value| < MAX_STRING
    requires !forall n <- OriginalNames(names) :: n.Known()
    ensures EditNames(EditNames(names, RENAME, k).items, RESET, k').items != names
  {
    hide EditNames;
    var o := OriginalNames(names);
    var n := names[0].(nOrdinal := 0, name := Some("x"));
    assert o[0] == OriginalName(names[0].hint, names[0].nOrig, names[0].orig) && o[1..] == OriginalNames(names[1..]);
    assert names[0] == o[0].Restored() && names[1..] == RestoredNames(o[1..]);
    EditNamesCons(names[0], names[1..], RENAME, k);
    assert [names[0]] + names[1..] == names;
    var renamed := EditNames(names[1..], RENAME, k + 1).items;
    EditNamesCons(n, renamed, RESET, k');
    var e := EditName(n, ResetSymbol(k', n));
    var back := EditNames(renamed, RESET, k' + 1).items;
    if o[0].Known() {
      assert forall m <- o :: m == o[0] || m in o[1..];
      RenameNamesSticks(names[1..], k + 1, k' + 1);
    } else {
      assert e == (true, n);
    }
    ConsDiffers(e.1, back, names);
  }

  lemma {:induction false} RenameNamesSucceeds(names: seq<ImportName>, k: nat)
    ensures EditNames(names, RENAME, k).ok
  {
    if names != [] {
      RenameNamesSucceeds(names[1..], k + 1);
    }
  }

  lemma EditFromCons(f: ImportFile, rest: seq<ImportFile>, cb: Callbacks, k: nat)
    requires cb.byway.Some? ==> cb == RESET
    requires EditHead(f, cb, if cb.byway.Some? then k + 1 else k).ok
    ensures var h := EditHead(f, cb, if cb.byway.Some? then k + 1 else k);
      EditFrom([f] + rest, cb, k, 0) == EditFrom(rest, cb, h.calls, 0).After(h.items)
  {
    assert ([f] + rest)[1..] == rest;
  }

  lemma RenameHead(f: ImportFile, k: nat)
    requires !f.byway
    ensures EditHead(f, RENAME, k).ok
    ensures EditHead(f, RENAME, k).items == [f.(names := EditNames(f.names, RENAME, k).items)]
  {
    RenameNamesSucceeds(f.names, k);
  }

  lemma {:induction false} ResetNamesSucceeds(names: seq<ImportName>, k: nat)
    requires forall n <- OriginalNames(names) :: n.orig.Some? ==> |n.orig.value| < MAX_STRING
    ensures EditNames(names, RESET, k).ok
  {
    if names != [] {
      var o := OriginalNames(names);
      assert o[0] == OriginalName(names[0].hint, names[0].nOrig, names[0].orig) && o[1..] == OriginalNames(names[1..]);
      assert forall m <- o[1..] :: m in o;
      ResetNamesSucceeds(names[1..], k + 1);
    }
  }

  lemma {:induction false} OriginalNamesRestored(o: seq<OriginalName>)
    ensures OriginalNames(RestoredNames(o)) == o
  {
    if o != [] {
      assert RestoredNames(o)[1..] == RestoredNames(o[1..]);
      OriginalNamesRestored(o[1..]);
    }
  }

  lemma OriginalOfRestored(o: OriginalFile)
    ensures OriginalOf(o.Restored()) == o
  {
    OriginalNamesRestored(o.names);
  }

  /** A file with an unknown symbol comes back from the two edits as another file, and any file as one file. */
  lemma RenameHeadSticks(f: ImportFile, o: OriginalFile, k: nat, k': nat)
    requires f == o.Restored() && Loaded([o])
    ensures var h := EditHead(EditHead(f, RENAME, k).items[0], RESET, k');
      h.ok && |h.items| == 1 && (o.Known() || h.items[0] != f)
  {
    assert o in [o];
    OriginalOfRestored(o);
    RenameHead(f, k);
    var renamed := EditNames(f.names, RENAME, k).items;
    EditNamesKeepOriginals(f.names, RENAME, k);
    ResetNamesSucceeds(renamed, k' + 1);
    if !o.Known() {
      RenameNamesSticks(f.names, k, k' + 1);
    }
  }

  lemma {:induction false} RenameSticks(o: seq<OriginalFile>, k: nat, k': nat)
    requires Loaded(o) && !AllKnown(o)
    ensures EditFrom(EditFrom(Restored(o), RENAME, k, 0).items, RESET, k', 0).items != Restored(o)
    decreases |o|
  {
    var f, rest := o[0].Restored(), Restored(o[1..]);
    assert Restored(o) == [f] + rest && o[0] in o;
    assert Loaded([o[0]]) && Loaded(o[1..]);
    RenameHead(f, k);
    RenameHeadSticks(f, o[0], k, k' + 1);
    EditFromCons(f, rest, RENAME, k);
    var h := EditHead(f, RENAME, k);
    var renamed := EditFrom(rest, RENAME, h.calls, 0).items;
    EditFromCons(h.items[0], renamed, RESET, k');
    var back := EditHead(h.items[0], RESET, k' + 1);
    var tail := EditFrom(renamed, RESET, back.calls, 0).items;
    if o[0].Known() {
      assert forall g <- o :: g == o[0] || g in o[1..];
      RenameSticks(o[1..], h.calls, back.calls);
    }
    assert Restored(o)[0] == f && Restored(o)[1..] == rest;
    ConsDiffers(back.items[0], tail, Restored(o));
  }

  /** Reset undoes every edit of a fresh list exactly when no symbol of the image has neither a name nor an ordinal
      other than zero: the edit that names every symbol is undone only then. */
  lemma ResetUndoesRenameIff(files: seq<ImportFile>)
    requires Fresh(files)
    ensures EditFrom(EditFrom(files, RENAME, 0, 0).items, RESET, 0, 0).items == files <==> AllKnown(Originals(files))
  {
    if AllKnown(Originals(files)) {
      EditKeepsOriginals(files, RENAME, 0, 0);
      ResetRestores(EditFrom(files, RENAME, 0, 0).items, 0);
    } else {
      RenameSticks(Originals(files), 0, 0);
    }
  }

  // -------- Whether the imports changed

  predicate NamesNeeded(names: seq<ImportName>) {
    exists n <- names :: n.name != n.orig
  }

  /** What CheckImportsNeeded looks for: a byway, or a name that is not the original one. */
  predicate Needed(files: seq<ImportFile>) {
    exists f <- files :: f.byway || f.name != f.orig || NamesNeeded(f.names)
  }

  lemma NeededCons(files: seq<ImportFile>)
    requires files != []
    ensures var f := files[0];
      Needed(files) <==> f.byway || f.name != f.orig || NamesNeeded(f.names) || Needed(files[1..])
  {
    assert files[0] in files && forall f <- files :: f == files[0] || f in files[1..];
    assert forall f <- files[1..] :: f in files;
  }

  lemma NamesNeededCons(names: seq<ImportName>)
    requires names != []
    ensures NamesNeeded(names) <==> names[0].name != names[0].orig || NamesNeeded(names[1..])
  {
    assert names[0] in names && forall n <- names :: n == names[0] || n in names[1..];
    assert forall n <- names[1..] :: n in names;
  }

  predicate OrdinalsAreOriginal(names: seq<ImportName>) {
    forall n <- names :: n.nOrdinal == if n.orig.Some? then 0 else n.nOrig
  }

  lemma {:induction false} NamesNotNeeded(names: seq<ImportName>)
    ensures !NamesNeeded(names) && OrdinalsAreOriginal(names) <==> names == RestoredNames(OriginalNames(names))
  {
    if names != [] {
      var o := OriginalNames(names);
      assert o[0] == OriginalName(names[0].hint, names[0].nOrig, names[0].orig) && o[1..] == OriginalNames(names[1..]);
      assert RestoredNames(o) == [o[0].Restored()] + RestoredNames(o[1..]);
      NamesNotNeeded(names[1..]);
      assert names == [names[0]] + names[1..];
      assert forall n <- names :: n == names[0] || n in names[1..];
      assert names[0] in names && forall n <- names[1..] :: n in names;
      assert names == RestoredNames(o) <==> names[0] == o[0].Restored() && names[1..] == RestoredNames(o[1..]);
    }
  }

  lemma RestoredCons(files: seq<ImportFile>)
    requires files != []
    ensures files == Restored(Originals(files)) <==>
      !files[0].byway && files[0] == OriginalOf(files[0]).Restored() && files[1..] == Restored(Originals(files[1..]))
  {
    var f, rest, o := files[0], files[1..], Originals(files);
    assert files == [f] + rest;
    if f.byway {
      assert o != [] ==> Restored(o)[0].byway == false;
    } else {
      assert o == [OriginalOf(f)] + Originals(rest);
      RestoredAppend([OriginalOf(f)], Originals(rest));
      assert Restored([OriginalOf(f)]) == [OriginalOf(f).Restored()];
    }
  }

  predicate AllOrdinalsOriginal(files: seq<ImportFile>) {
    forall f <- files :: OrdinalsAreOriginal(f.names)
  }

  /** The image is found unchanged exactly when every name is the original one.  Ordinals are not looked at: it is the
      original list only if they did not change either. */
  lemma {:induction false} NotNeededIff(files: seq<ImportFile>)
    ensures !Needed(files) && AllOrdinalsOriginal(files) <==> files == Restored(Originals(files))
  {
    if files != [] {
      var f, rest := files[0], files[1..];
      NeededCons(files);
      RestoredCons(files);
      NotNeededIff(rest);
      NamesNotNeeded(f.names);
      assert AllOrdinalsOriginal(files) <==> OrdinalsAreOriginal(f.names) && AllOrdinalsOriginal(rest) by {
        assert f in files && forall g <- files :: g == f || g in rest;
        assert forall g <- rest :: g in files;
      }
    }
  }

  lemma {:induction false} OriginalsRestored(o: seq<OriginalFile>)
    ensures Originals(Restored(o)) == o
  {
    if o != [] {
      assert Restored(o)[1..] == Restored(o[1..]);
      OriginalOfRestored(o[0]);
      OriginalsRestored(o[1..]);
    }
  }

  /** The original list needs no new tables. */
  lemma RestoredIsNotNeeded(o: seq<OriginalFile>)
    ensures !Needed(Restored(o))
  {
    OriginalsRestored(o);
    NotNeededIff(Restored(o));
  }

  const RENUMBER := Callbacks(None, None, Some((k, n) => SymbolAnswer(Null, 2)), None)

  /** An edit that changes one ordinal import into another is not noticed. */
  lemma RenumberedOrdinalIsMissed()
    ensures var n := ImportName(0, 1, 1, None, None);
      var files := [ImportFile(false, [n], 8, 0, Some("a"), Some("a"))];
      var edited := EditFrom(files, RENUMBER, 0, 0).items;
      Fresh(files) && edited != files && !Needed(edited)
  {
    var n := ImportName(0, 1, 1, None, None);
    var m := n.(nOrdinal := 2);
    var f := ImportFile(false, [n], 8, 0, Some("a"), Some("a"));
    NotNeededIff([f]);
    EditNamesCons(n, [], RENUMBER, 0);
    assert [n] + [] == [n] && [m] + [] == [m];
    EditFromCons(f, [], RENUMBER, 0);
    assert EditHead(f, RENUMBER, 0).items == [f.(names := [m])];
    assert [f] + [] == [f] && [f.(names := [m])] + [] == [f.(names := [m])];
  }

  // -------- What CheckImportsNeeded counts

  function Even(n: nat): nat {
    n + n % 2
  }

  predicate Named(files: seq<ImportFile>) {
    forall f <- files :: f.name.Some?
  }

  /** Room for a name and its zero. */
  function NameSize(name: string): nat {
    Even(|name| + 1)
  }

  /** Room for the hint and the name of a symbol imported by name. */
  function SymbolSize(n: ImportName): nat {
    if n.name.Some? then Even(2 + |n.name.value| + 1) else 0
  }

  function SymbolsSize(names: seq<ImportName>): nat {
    if names == [] then 0 else SymbolSize(names[0]) + SymbolsSize(names[1..])
  }

  function FileSize(f: ImportFile): nat
    requires f.name.Some?
  {
    NameSize(f.name.value) + if f.byway then 0 else SymbolsSize(f.names)
  }

  function Chars(files: seq<ImportFile>): nat
    requires Named(files)
  {
    if files == [] then 0 else FileSize(files[0]) + Chars(files[1..])
  }

  /** The thunks of a file, with the zero that ends them. */
  function ThunkCount(f: ImportFile): nat {
    (if f.byway then 1 else |f.names|) + 1
  }

  function Thunks(files: seq<ImportFile>): nat {
    if files == [] then 0 else ThunkCount(files[0]) + Thunks(files[1..])
  }

  /** One turn of CheckImportsNeeded. */
  lemma CountFrom(files: seq<ImportFile>, i: nat)
    requires Named(files) && i < |files|
    ensures Named(files[i..]) && Named(files[i + 1..]) && files[i].name.Some?
    ensures Thunks(files[i..]) == ThunkCount(files[i]) + Thunks(files[i + 1..])
    ensures Chars(files[i..]) == FileSize(files[i]) + Chars(files[i + 1..])
    ensures var f := files[i];
      Needed(files[i..]) <==> f.byway || f.name != f.orig || NamesNeeded(f.names) || Needed(files[i + 1..])
  {
    hide Needed, NamesNeeded;
    var f, rest, tail := files[i], files[i..], files[i + 1..];
    assert f in files && rest[0] == f && rest[1..] == tail;
    assert forall g <- rest :: g in files;
    assert forall g <- tail :: g in files;
    NeededCons(rest);
  }

  lemma CountEnd(files: seq<ImportFile>, i: nat)
    requires i == |files|
    ensures Named(files[i..]) && !Needed(files[i..]) && Thunks(files[i..]) == 0 && Chars(files[i..]) == 0
  {
  }
}
