/** What an edit of the imports does, by cases: the list in terms of what the callbacks answered
    (detours/image.cpp). */
module ImageEdits {
  import opened ImageImports
  import opened Wrappers

  // -------- Symbols

  /** A symbol the callback was content with: it has the new name and no ordinal, or the new ordinal and no name, or is
      as it was. */
  predicate SymbolGood(n: ImportName, a: SymbolAnswer, now: ImportName) {
    match a
    case SymbolAbort => false
    case SymbolAnswer(name, ordinal) =>
      match name
      case Abort => false
      case Name(s) => |s| < 8192 && now == ImportName(n.hint, n.nOrig, 0, n.orig, Some(s))
      case Null => now == if ordinal == 0 then n else ImportName(n.hint, n.nOrig, ordinal, n.orig, None)
      case Same =>
        now == if n.name.Some? || ordinal == 0 then n else ImportName(n.hint, n.nOrig, ordinal, n.orig, None)
  }

  /** A symbol at which the edit broke off: the callback failed, or its name is too long to be copied. */
  predicate SymbolBroken(n: ImportName, a: SymbolAnswer, now: ImportName) {
    match a
    case SymbolAbort => now == n
    case SymbolAnswer(name, ordinal) =>
      if name.Name? then |name.s| >= 8192 && now == ImportName(n.hint, n.nOrig, 0, n.orig, None)
      else name.Abort? && now == n
  }

  ghost predicate NamesGood(names: seq<ImportName>, now: seq<ImportName>, cb: Callbacks, k: nat) {
    if cb.symbol.None? then now == names
    else
      && |now| == |names|
      && forall j {:trigger now[j]} :: 0 <= j < |names| ==>
           SymbolGood(names[j], cb.symbol.value(k + j, names[j]), now[j])
  }

  /** The symbols up to `j` are edited, `j` is the one at which the edit broke off, and the others are as they were. */
  ghost predicate NamesBroken(names: seq<ImportName>, now: seq<ImportName>, cb: Callbacks, k: nat, j: nat) {
    && cb.symbol.Some? && |now| == |names| && j < |names|
    && (forall i {:trigger now[i]} :: 0 <= i < j ==> SymbolGood(names[i], cb.symbol.value(k + i, names[i]), now[i]))
    && SymbolBroken(names[j], cb.symbol.value(k + j, names[j]), now[j])
    && (forall i {:trigger now[i]} :: j < i < |names| ==> now[i] == names[i])
  }

  lemma SymbolEdited(n: ImportName, a: SymbolAnswer)
    ensures var e := EditName(n, a); if e.0 then SymbolGood(n, a, e.1) else SymbolBroken(n, a, e.1)
  {
  }

  lemma NamesCons(names: seq<ImportName>, n: ImportName, rest: seq<ImportName>, cb: Callbacks, k: nat, j: nat)
    requires names != [] && cb.symbol.Some? && SymbolGood(names[0], cb.symbol.value(k, names[0]), n)
    ensures NamesGood(names[1..], rest, cb, k + 1) ==> NamesGood(names, [n] + rest, cb, k)
    ensures NamesBroken(names[1..], rest, cb, k + 1, j) ==> NamesBroken(names, [n] + rest, cb, k, j + 1)
  {
    hide SymbolGood, SymbolBroken;
    var now := [n] + rest;
    if NamesBroken(names[1..], rest, cb, k + 1, j) {
      assert now[j + 1] == rest[j] && k + (j + 1) == k + 1 + j;
      forall i {:trigger now[i]} | 0 <= i < j + 1
        ensures SymbolGood(names[i], cb.symbol.value(k + i, names[i]), now[i])
      {
        if i > 0 { assert now[i] == rest[i - 1] && k + i == k + 1 + (i - 1); }
      }
    }
    if NamesGood(names[1..], rest, cb, k + 1) {
      forall i {:trigger now[i]} | 0 <= i < |names|
        ensures SymbolGood(names[i], cb.symbol.value(k + i, names[i]), now[i])
      {
        if i > 0 { assert now[i] == rest[i - 1] && k + i == k + 1 + (i - 1); }
      }
    }
  }

  lemma {:induction false} NamesEdited(names: seq<ImportName>, cb: Callbacks, k: nat) returns (j: nat)
    ensures var p := EditNames(names, cb, k);
      && (p.ok ==> NamesGood(names, p.items, cb, k) && p.calls == k + if cb.symbol.Some? then |names| else 0)
      && (!p.ok ==> NamesBroken(names, p.items, cb, k, j))
    decreases |names|
  {
    j := 0;
    if names != [] && cb.symbol.Some? {
      hide SymbolGood, SymbolBroken, EditName;
      var a := cb.symbol.value(k, names[0]);
      var e := EditName(names[0], a);
      SymbolEdited(names[0], a);
      if e.0 {
        var j' := NamesEdited(names[1..], cb, k + 1);
        j := j' + 1;
        NamesCons(names, e.1, EditNames(names[1..], cb, k + 1).items, cb, k, j');
      }
    }
  }

  // -------- Files

  /** A file the callbacks were content with: a new name if one was given, its symbols as above, and all else as it was.
      */
  ghost predicate FileGood(f: ImportFile, now: ImportFile, cb: Callbacks, k: nat) {
    && now == f.(name := now.name, names := now.names)
    && (if cb.file.None? then now.name == f.name
        else
          match cb.file.value(k, f.orig, f.name)
          case Abort => false
          case Name(s) => |s| < 8192 && now.name == Some(s)
          case _ => now.name == f.name)
    && NamesGood(f.names, now.names, cb, if cb.file.Some? then k + 1 else k)
  }

  /** A file at which the edit broke off: at its name, or at symbol `j`. */
  ghost predicate FileBroken(f: ImportFile, now: ImportFile, cb: Callbacks, k: nat, j: nat) {
    if cb.file.Some? && cb.file.value(k, f.orig, f.name).Abort? then now == f
    else if cb.file.Some? && cb.file.value(k, f.orig, f.name).Name? && |cb.file.value(k, f.orig, f.name).s| >= 8192 then
      now == f.(name := None)
    else
      && now == f.(name := now.name, names := now.names)
      && now.name == (if cb.file.Some? && cb.file.value(k, f.orig, f.name).Name?
                      then Some(cb.file.value(k, f.orig, f.name).s) else f.name)
      && NamesBroken(f.names, now.names, cb, if cb.file.Some? then k + 1 else k, j)
  }

  /** A byway the callback was content with: renamed, kept, or gone. */
  ghost predicate BywayGood(f: ImportFile, part: seq<ImportFile>, cb: Callbacks, k: nat) {
    if cb.byway.None? then part == [f]
    else
      match cb.byway.value(k, f.name)
      case Abort => false
      case Null => part == []
      case Same => part == if f.name.Some? then [f] else []
      case Name(s) => |s| < 8192 && part == [f.(name := Some(s))]
  }

  /** A byway at which the edit broke off. */
  ghost predicate BywayBroken(f: ImportFile, part: seq<ImportFile>, cb: Callbacks, k: nat) {
    && cb.byway.Some?
    && match cb.byway.value(k, f.name)
       case Abort => part == [f]
       case Name(s) => |s| >= 8192 && part == [f.(name := None)]
       case _ => false
  }

  ghost predicate HeadGood(f: ImportFile, part: seq<ImportFile>, cb: Callbacks, k: nat) {
    if f.byway then BywayGood(f, part, cb, k) else |part| == 1 && FileGood(f, part[0], cb, k)
  }

  ghost predicate HeadBroken(f: ImportFile, part: seq<ImportFile>, cb: Callbacks, k: nat, j: nat) {
    if f.byway then BywayBroken(f, part, cb, k) else |part| == 1 && FileBroken(f, part[0], cb, k, j)
  }

  ghost predicate HeadBreaks(f: ImportFile, part: seq<ImportFile>, cb: Callbacks, k: nat) {
    exists j :: HeadBroken(f, part, cb, k, j)
  }

  /** The callbacks that a file takes. */
  function HeadCalls(f: ImportFile, cb: Callbacks): nat {
    if f.byway then (if cb.byway.Some? then 1 else 0)
    else (if cb.file.Some? then 1 else 0) + (if cb.symbol.Some? then |f.names| else 0)
  }

  lemma HeadEdited(f: ImportFile, cb: Callbacks, k: nat) returns (j: nat)
    ensures var h := EditHead(f, cb, k);
      && (h.ok ==> HeadGood(f, h.items, cb, k) && h.calls == k + HeadCalls(f, cb))
      && (!h.ok ==> HeadBroken(f, h.items, cb, k, j))
  {
    hide EditNames, NamesGood, NamesBroken;
    j := NamesEdited(f.names, cb, if cb.file.Some? then k + 1 else k);
  }

  // -------- The list

  /** A byway that callback `k` named. */
  ghost predicate InsertedAt(f: ImportFile, cb: Callbacks, k: nat)
    requires cb.byway.Some?
  {
    var a := cb.byway.value(k, None);
    a.Name? && |a.s| < 8192 && f == ImportFile(true, [], 0, 0, None, Some(a.s))
  }

  /** The byways that were inserted in one place: the callback named them, one after the other. */
  ghost predicate Inserted(gap: seq<ImportFile>, cb: Callbacks, k: nat) {
    if cb.byway.None? then gap == []
    else forall j {:trigger gap[j]} :: 0 <= j < |gap| ==> InsertedAt(gap[j], cb, k + j)
  }

  /** The edit breaks off before it inserts another byway. */
  ghost predicate GapBreaks(cb: Callbacks, k: nat) {
    cb.byway.Some? && var a := cb.byway.value(k, None); a.Abort? || (a.Name? && |a.s| >= 8192)
  }

  /** The rest of a pass, behind a gap after which no other byway is inserted; `h` is the callback that said so. */
  ghost predicate StoryAfter(files: seq<ImportFile>, now: seq<ImportFile>, ok: bool, cb: Callbacks, h: nat, end: nat,
                             gaps: seq<seq<ImportFile>>, parts: seq<seq<ImportFile>>)
    decreases |files|, 0
  {
    if GapBreaks(cb, h) then !ok && now == files
    else
      && (cb.byway.Some? ==> !cb.byway.value(h, None).Name?)
      && var h' := if cb.byway.Some? then h + 1 else h;
         if files == [] then ok && now == [] && end == h'
         else
           && parts != []
           && (|| (&& HeadGood(files[0], parts[0], cb, h') && parts[0] <= now
                   && Story(files[1..], now[|parts[0]|..], ok, cb, h' + HeadCalls(files[0], cb), end, gaps, parts[1..]))
               || (!ok && now == parts[0] + files[1..] && HeadBreaks(files[0], parts[0], cb, h')))
  }

  /** The whole pass over the list, from callback `k` on: `gaps[i]` stands before what became of file `i`, which is
      `parts[i]`.  It ends well with callback `end`, or it breaks off, and the rest of the list is as it was. */
  ghost predicate Story(files: seq<ImportFile>, now: seq<ImportFile>, ok: bool, cb: Callbacks, k: nat, end: nat,
                        gaps: seq<seq<ImportFile>>, parts: seq<seq<ImportFile>>)
    decreases |files|, 1
  {
    && gaps != [] && Inserted(gaps[0], cb, k) && gaps[0] <= now
    && StoryAfter(files, now[|gaps[0]|..], ok, cb, k + |gaps[0]|, end, gaps[1..], parts)
  }

  lemma InsertedCons(f: ImportFile, gap: seq<ImportFile>, cb: Callbacks, k: nat)
    requires cb.byway.Some? && InsertedAt(f, cb, k) && Inserted(gap, cb, k + 1)
    ensures Inserted([f] + gap, cb, k)
  {
    hide InsertedAt;
    var all := [f] + gap;
    forall j {:trigger all[j]} | 0 <= j < |all|
      ensures InsertedAt(all[j], cb, k + j)
    {
      if j > 0 { assert all[j] == gap[j - 1] && k + j == k + 1 + (j - 1); }
    }
  }

  lemma StoryInsert(files: seq<ImportFile>, now: seq<ImportFile>, ok: bool, cb: Callbacks, k: nat, end: nat,
                    gaps: seq<seq<ImportFile>>, parts: seq<seq<ImportFile>>)
    requires Story(files, now, ok, cb, k + 1, end, gaps, parts)
    requires cb.byway.Some? && cb.byway.value(k, None).Name? && |cb.byway.value(k, None).s| < 8192
    ensures var f := ImportFile(true, [], 0, 0, None, Some(cb.byway.value(k, None).s));
      Story(files, [f] + now, ok, cb, k, end, [[f] + gaps[0]] + gaps[1..], parts)
  {
    hide HeadGood, HeadBroken, StoryAfter, Inserted;
    var f := ImportFile(true, [], 0, 0, None, Some(cb.byway.value(k, None).s));
    var gap, gaps' := [f] + gaps[0], [[f] + gaps[0]] + gaps[1..];
    InsertedCons(f, gaps[0], cb, k);
    assert gaps'[0] == gap && gaps'[1..] == gaps[1..];
    assert gap <= [f] + now && ([f] + now)[|gap|..] == now[|gaps[0]|..];
    assert k + |gap| == k + 1 + |gaps[0]|;
    assert StoryAfter(files, ([f] + now)[|gap|..], ok, cb, k + |gap|, end, gaps'[1..], parts);
  }

  /** A pass in which no byway is inserted first. */
  lemma StoryHere(files: seq<ImportFile>, now: seq<ImportFile>, ok: bool, cb: Callbacks, k: nat, end: nat,
                  gaps: seq<seq<ImportFile>>, parts: seq<seq<ImportFile>>)
    requires StoryAfter(files, now, ok, cb, k, end, gaps, parts)
    ensures Story(files, now, ok, cb, k, end, [[]] + gaps, parts)
  {
    hide StoryAfter;
    assert now[0..] == now && ([[]] + gaps)[1..] == gaps && [] <= now && k + 0 == k;
  }

  /** A file the callbacks were content with, and the rest of the pass. */
  lemma StoryTurn(files: seq<ImportFile>, part: seq<ImportFile>, rest: seq<ImportFile>, ok: bool, cb: Callbacks, h: nat,
                  end: nat, gaps: seq<seq<ImportFile>>, parts: seq<seq<ImportFile>>)
    requires files != [] && !GapBreaks(cb, h) && (cb.byway.Some? ==> !cb.byway.value(h, None).Name?)
    requires var h' := if cb.byway.Some? then h + 1 else h;
      && HeadGood(files[0], part, cb, h')
      && Story(files[1..], rest, ok, cb, h' + HeadCalls(files[0], cb), end, gaps, parts)
    ensures StoryAfter(files, part + rest, ok, cb, h, end, gaps, [part] + parts)
  {
    hide HeadGood, HeadBroken, GapBreaks, Story, HeadCalls;
    var now, all := part + rest, [part] + parts;
    assert now[|part|..] == rest && part <= now && all[0] == part && all[1..] == parts;
  }

  /** A file at which the edit broke off. */
  lemma StoryStops(files: seq<ImportFile>, part: seq<ImportFile>, cb: Callbacks, h: nat, end: nat)
    requires files != [] && !GapBreaks(cb, h) && (cb.byway.Some? ==> !cb.byway.value(h, None).Name?)
    requires HeadBreaks(files[0], part, cb, if cb.byway.Some? then h + 1 else h)
    ensures StoryAfter(files, part + files[1..], false, cb, h, end, [], [part])
  {
    hide HeadGood, HeadBreaks, GapBreaks, Story, HeadCalls;
    assert [part][0] == part;
  }

  lemma {:induction false} EditStory(files: seq<ImportFile>, cb: Callbacks, k: nat, limit: nat)
    returns (gaps: seq<seq<ImportFile>>, parts: seq<seq<ImportFile>>)
    requires cb.StopsAt(limit)
    ensures var p := EditFrom(files, cb, k, limit); Story(files, p.items, p.ok, cb, k, p.calls, gaps, parts)
    decreases CallsLeft(limit, k), |files|
  {
    hide HeadGood, HeadBroken, EditHead;
    gaps, parts := [], [];
    var p := EditFrom(files, cb, k, limit);
    if cb.byway.Some? && cb.byway.value(k, None).Name? && |cb.byway.value(k, None).s| < 8192 {
      var s := cb.byway.value(k, None).s;
      gaps, parts := EditStory(files, cb, k + 1, limit);
      var q := EditFrom(files, cb, k + 1, limit);
      StoryInsert(files, q.items, q.ok, cb, k, q.calls, gaps, parts);
      gaps := [[NewByway(s)] + gaps[0]] + gaps[1..];
    } else {
      if !GapBreaks(cb, k) && files != [] {
        var k' := if cb.byway.Some? then k + 1 else k;
        var h := EditHead(files[0], cb, k');
        var j := HeadEdited(files[0], cb, k');
        parts := [h.items];
        if h.ok {
          gaps, parts := EditStory(files[1..], cb, h.calls, limit);
          var rest := EditFrom(files[1..], cb, h.calls, limit).items;
          StoryTurn(files, h.items, rest, p.ok, cb, k, p.calls, gaps, parts);
          parts := [h.items] + parts;
        } else {
          assert HeadBroken(files[0], h.items, cb, k', j);
          StoryStops(files, h.items, cb, k, p.calls);
        }
      }
      StoryHere(files, p.items, p.ok, cb, k, p.calls, gaps, parts);
      gaps := [[]] + gaps;
    }
  }

  /** The edit leaves this list and this answer: the pass as told, and then, if it ended well, the commit callback,
      which gets the next number. */
  ghost predicate EditedAs(files: seq<ImportFile>, now: seq<ImportFile>, ok: bool, cb: Callbacks) {
    exists gaps, parts, end, passed ::
      Story(files, now, passed, cb, 0, end, gaps, parts)
      && ok == (passed && (cb.commit.Some? ==> cb.commit.value(end)))
  }

  lemma EditIsTold(files: seq<ImportFile>, cb: Callbacks, limit: nat)
    requires cb.StopsAt(limit)
    ensures var p := Edited(files, cb, limit); EditedAs(files, p.items, p.ok, cb)
  {
    hide Story, EditFrom;
    var q := EditFrom(files, cb, 0, limit);
    var gaps, parts := EditStory(files, cb, 0, limit);
    assert Story(files, q.items, q.ok, cb, 0, q.calls, gaps, parts);
  }

  // -------- Callbacks that do not count

  ghost predicate Steady(cb: Callbacks) {
    && (cb.byway.Some? ==> forall k, x :: cb.byway.value(k, x) == cb.byway.value(0, x))
    && (cb.file.Some? ==> forall k, x, y :: cb.file.value(k, x, y) == cb.file.value(0, x, y))
    && (cb.symbol.Some? ==> forall k, n :: cb.symbol.value(k, n) == cb.symbol.value(0, n))
  }

  function Concat(parts: seq<seq<ImportFile>>): seq<ImportFile> {
    if parts == [] then [] else parts[0] + Concat(parts[1..])
  }

  lemma HeadSteady(f: ImportFile, part: seq<ImportFile>, cb: Callbacks, k: nat)
    requires Steady(cb) && HeadGood(f, part, cb, k)
    ensures HeadGood(f, part, cb, 0)
  {
    hide SymbolGood;
    if !f.byway && cb.symbol.Some? {
      var now, from, to := part[0].names, if cb.file.Some? then k + 1 else k, if cb.file.Some? then 1 else 0;
      forall j {:trigger now[j]} | 0 <= j < |f.names|
        ensures SymbolGood(f.names[j], cb.symbol.value(to + j, f.names[j]), now[j])
      {
        assert cb.symbol.value(to + j, f.names[j]) == cb.symbol.value(from + j, f.names[j]);
      }
    }
  }

  lemma FirstInserted(gap: seq<ImportFile>, cb: Callbacks, k: nat)
    requires Inserted(gap, cb, k)
    ensures gap != [] ==> cb.byway.Some? && cb.byway.value(k, None).Name?
  {
    if gap != [] {
      assert gap[0] == gap[0] && k + 0 == k;
    }
  }

  lemma NothingInserted(gap: seq<ImportFile>, cb: Callbacks, k: nat, limit: nat)
    requires cb.StopsAt(limit) && Steady(cb) && Inserted(gap, cb, k)
    ensures gap == []
  {
    hide Inserted;
    FirstInserted(gap, cb, k);
    assert cb.byway.Some? ==>
             cb.byway.value(k, None) == cb.byway.value(0, None) == cb.byway.value(limit, None);
  }

  lemma {:induction false} SteadyStory(files: seq<ImportFile>, now: seq<ImportFile>, cb: Callbacks, k: nat, end: nat,
                                       gaps: seq<seq<ImportFile>>, parts: seq<seq<ImportFile>>, limit: nat)
    requires cb.StopsAt(limit) && Steady(cb) && Story(files, now, true, cb, k, end, gaps, parts)
    ensures |parts| >= |files| && now == Concat(parts[..|files|])
    ensures forall i :: 0 <= i < |files| ==> HeadGood(files[i], parts[i], cb, 0)
    decreases |files|
  {
    hide HeadGood, HeadBreaks, Inserted;
    NothingInserted(gaps[0], cb, k, limit);
    assert now[0..] == now;
    if files != [] {
      var h' := if cb.byway.Some? then k + 1 else k;
      HeadSteady(files[0], parts[0], cb, h');
      var rest := now[|parts[0]|..];
      SteadyStory(files[1..], rest, cb, h' + HeadCalls(files[0], cb), end, gaps[1..], parts[1..], limit);
      assert parts[..|files|][1..] == parts[1..][..|files| - 1] && now == parts[0] + rest;
    }
  }

  /** Callbacks that do not look at the count insert nothing; the list is, one after the other, what became of its
      files. */
  lemma SteadyEdit(files: seq<ImportFile>, now: seq<ImportFile>, cb: Callbacks, limit: nat)
    requires cb.StopsAt(limit) && Steady(cb) && EditedAs(files, now, true, cb)
    ensures exists parts ::
      && |parts| == |files| && now == Concat(parts)
      && forall i :: 0 <= i < |files| ==> HeadGood(files[i], parts[i], cb, 0)
  {
    hide Story, HeadGood;
    var gaps, parts, end, passed :|
      Story(files, now, passed, cb, 0, end, gaps, parts)
      && true == (passed && (cb.commit.Some? ==> cb.commit.value(end)));
    SteadyStory(files, now, cb, 0, end, gaps, parts, limit);
    var ps := parts[..|files|];
    assert |ps| == |files| && now == Concat(ps) && forall i :: 0 <= i < |files| ==> HeadGood(files[i], ps[i], cb, 0);
  }
}
