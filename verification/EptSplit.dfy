/** Finding an entry, splitting a large page into 512 smaller ones, and joining them back. */
module EptSplit {
  import opened EptPath
  import opened EptTree
  import opened EptWalk
  import opened Paging
  import opened Wrappers

  // -------- ept_entry

  /** The translation an entry of level `l` gives if the walk ends there. */
  ghost function EntryOutcome(e: Entry, l: nat, p: Pa): Outcome
    requires l <= 3
  {
    if e.Present() then LeafOutcome(e, READ_WRITE_EXECUTE, l, p) else NotPresent
  }

  /** ept_entry and the processor's walk agree: if it finds nothing, the address does not translate; if it finds an
      entry that is no pointer, that entry is where the walk ends; and it stops above the wanted level only at a large
      page. */
  ghost predicate EntryAgrees(mem: Memory, root: nat, dir: Directory, g: Pa, level: nat) {
    match EptEntry(mem, root, g, level)
    case None => Translate(mem, root, g) == NotPresent
    case Some(s) =>
      && s.level <= 2 && NodeOf(g, s.level) in dir && s.frame == dir[NodeOf(g, s.level)]
      && s.index == Offset(g, s.level) && s.frame in mem
      && (level <= 2 ==> level <= s.level)
      && (s.level != level && s.level > 0 ==> IsLeaf(mem[s.frame][s.index], s.level))
      && (!IsPointer(mem[s.frame][s.index], s.level) ==>
          Translate(mem, root, g) == EntryOutcome(mem[s.frame][s.index], s.level, g))
  }

  /** One step of the walk of `g`, seen from the directory. */
  lemma EntryStep(mem: Memory, root: nat, dir: Directory, g: Pa, l: nat)
    requires WellFormed(mem, root, dir) && l <= 3 && NodeOf(g, l) in dir
    ensures dir[NodeOf(g, l)] in mem
    ensures var e := mem[dir[NodeOf(g, l)]][Offset(g, l)];
            && (IsPointer(e, l) ==> NodeOf(g, l - 1) in dir && dir[NodeOf(g, l - 1)] == e.pfn)
            && (l > 0 && NodeOf(g, l - 1) in dir ==> IsPointer(e, l))
            && (!e.Present() ==> e == CLEARED)
            && (l == 3 ==> !e.large)
            && (!IsPointer(e, l) ==> Translate(mem, root, g) == EntryOutcome(e, l, g))
  {
    assert EntryOk(mem, dir, NodeOf(g, l), Offset(g, l));
    if l > 0 { NodeOfChild(g, l); }
    WalkReaches(mem, root, dir, g, l);
  }

  lemma EptEntryAgreesWithWalk(mem: Memory, root: nat, dir: Directory, g: Pa, level: nat)
    requires WellFormed(mem, root, dir)
    ensures EntryAgrees(mem, root, dir, g, level)
    ensures level <= 2 && NodeOf(g, level) in dir ==>
              EptEntry(mem, root, g, level) == Some(Slot(dir[NodeOf(g, level)], level, Offset(g, level)))
  {
    RootCovers(g);
    EntryStep(mem, root, dir, g, 3);
    if NodeOf(g, 2) in dir {
      EntryStep(mem, root, dir, g, 2);
      if NodeOf(g, 1) in dir {
        EntryStep(mem, root, dir, g, 1);
        if NodeOf(g, 0) in dir {
          EntryStep(mem, root, dir, g, 0);
        }
      } else if NodeOf(g, 0) in dir {
        PathIsClosed(mem, root, dir, g, 0, 1);
      }
    } else {
      if NodeOf(g, 1) in dir { PathIsClosed(mem, root, dir, g, 1, 2); }
      if NodeOf(g, 0) in dir { PathIsClosed(mem, root, dir, g, 0, 2); }
    }
  }

  /** When the table of the wanted level exists, mapping there needs no new table. */
  lemma PathPresent(mem: Memory, root: nat, dir: Directory, g: Pa, level: nat)
    requires WellFormed(mem, root, dir) && level <= 2 && NodeOf(g, level) in dir
    ensures NoLargeAbove(mem, dir, g, level, 2)
    ensures Missing(dir, g, level, 2) == 0
  {
    forall k | level < k <= 2 && NodeOf(g, k) in dir ensures !EntryAt(mem, dir, g, k).large {
      PathIsClosed(mem, root, dir, g, level, k - 1);
      EntryStep(mem, root, dir, g, k);
    }
    PathIsClosed(mem, root, dir, g, level, 2);
    PathIsClosed(mem, root, dir, g, level, if level <= 1 then 1 else 2);
  }

  // -------- Splitting

  /** The address of small page `i` of the page of level `from` at `g`. */
  function SubPage(g: Pa, i: nat, from: nat): (r: Pa)
    requires 1 <= from <= 2 && i < 512 && g + Span(from) <= ADDRESS_LIMIT
  {
    g + i * Span(from - 1)
  }

  lemma SubPageNumber(g: Pa, i: nat, from: nat, p: Pa)
    requires 1 <= from <= 2 && i < 512 && g % Span(from) == 0 && g + Span(from) <= ADDRESS_LIMIT
    ensures SamePage(SubPage(g, i, from), g, from)
    ensures Offset(SubPage(g, i, from), from - 1) == i
    ensures SamePage(p, SubPage(g, i, from), from - 1) <==> SamePage(p, g, from) && Offset(p, from - 1) == i
  {
    var q := SubPage(g, i, from);
    PageNumberIsQuotient(g, from);
    PageNumberIsQuotient(q, from - 1);
    assert PageNumber(q, from - 1) == PageNumber(g, from) * 512 + i by {
      if from == 1 {
        assert q / 0x1000 == g / 0x20_0000 * 512 + i;
      } else {
        assert q / 0x20_0000 == g / 0x4000_0000 * 512 + i;
      }
    }
    assert PageNumber(q, from) == PageNumber(q, from - 1) / 512;
    assert PageNumber(p, from) == PageNumber(p, from - 1) / 512;
  }

  /** What `p` translates to after its page of level `from` is mapped to `h` in 512 small pages. */
  function SplitOutcome(h: Pa, a: Access, from: nat, p: Pa): Outcome
    requires 1 <= from <= 2 && h + Span(from) <= ADDRESS_LIMIT
  {
    PageOutcome(SubPage(h, Offset(p, from - 1), from), a, from - 1, p)
  }

  lemma DigitOfPage(p: Pa, l: nat)
    requires 1 <= l <= 2
    ensures p % Span(l) == Offset(p, l - 1) * Span(l - 1) + p % Span(l - 1)
  {
    PageNumberIsQuotient(p, l - 1);
    if l == 1 {
      assert p % 0x20_0000 == p / 0x1000 % 512 * 0x1000 + p % 0x1000;
    } else {
      assert p % 0x4000_0000 == p / 0x20_0000 % 512 * 0x20_0000 + p % 0x20_0000;
    }
  }

  lemma AlignedTo4K(h: int, o: int)
    requires h % 0x20_0000 == 0
    ensures (h + o * 0x1000) % 0x1000 == 0
  {
    var k := 512 * (h / 0x20_0000) + o;
    assert h + o * 0x1000 == 0x1000 * k;
    assert (0x1000 * k) % 0x1000 == 0;
  }

  lemma AlignedTo2M(h: int, o: int)
    requires h % 0x4000_0000 == 0
    ensures (h + o * 0x20_0000) % 0x20_0000 == 0
  {
    var k := 512 * (h / 0x4000_0000) + o;
    assert h + o * 0x20_0000 == 0x20_0000 * k;
    assert (0x20_0000 * k) % 0x20_0000 == 0;
  }

  lemma AlignsTo(x: int)
    requires x % 0x20_0000 == 0
    ensures PageAlign(x, 0) == x
  {
    AlignedTo4K(x, 0);
  }

  lemma AlignedPages(h: int, o: int)
    requires h % 0x4000_0000 == 0
    ensures PageAlign(h, 0) == h && PageAlign(h + o * 0x20_0000, 0) == h + o * 0x20_0000
  {
    AlignedTo2M(h, 0);
    AlignedTo2M(h, o);
    hide PageAlign;
    AlignsTo(h);
    AlignsTo(h + o * 0x20_0000);
  }

  lemma SubPageIsAligned4K(h: Pa, o: nat)
    requires h % Span(1) == 0 && o < 512 && h + Span(1) <= ADDRESS_LIMIT
    ensures PageAlign(h, 0) == h && PageAlign(SubPage(h, o, 1), 0) == SubPage(h, o, 1)
    ensures SubPage(h, o, 1) % Span(0) == 0
  {
    AlignedTo4K(h, 0);
    AlignedTo4K(h, o);
  }

  lemma SubPageIsAligned2M(h: Pa, o: nat)
    requires h % Span(2) == 0 && o < 512 && h + Span(2) <= ADDRESS_LIMIT
    ensures PageAlign(h, 0) == h && PageAlign(SubPage(h, o, 2), 0) == SubPage(h, o, 2)
    ensures SubPage(h, o, 2) % Span(1) == 0
  {
    hide PageAlign;
    AlignedPages(h, o);
    AlignedTo2M(h, o);
  }

  lemma SubPageIsAligned(h: Pa, o: nat, from: nat)
    requires 1 <= from <= 2 && h % Span(from) == 0 && o < 512 && h + Span(from) <= ADDRESS_LIMIT
    ensures PageAlign(h, 0) == h && PageAlign(SubPage(h, o, from), 0) == SubPage(h, o, from)
    ensures SubPage(h, o, from) % Span(from - 1) == 0
  {
    hide Span, SubPage, PageAlign;
    if from == 1 {
      SubPageIsAligned4K(h, o);
    } else {
      SubPageIsAligned2M(h, o);
    }
  }

  /** The 512 small pages together are the large page, if the host base is aligned. */
  lemma SplitOutcomeIsPageOutcome(h: Pa, a: Access, from: nat, p: Pa)
    requires 1 <= from <= 2 && h % Span(from) == 0 && h + Span(from) <= ADDRESS_LIMIT
    ensures SplitOutcome(h, a, from, p) == PageOutcome(h, a, from, p)
  {
    DigitOfPage(p, from);
    SubPageIsAligned(h, Offset(p, from - 1), from);
  }

  /** The state after `i` of the 512 small pages are mapped.  `s` is the level of the large page that was there. */
  ghost predicate SplitUpTo(m0: Memory, d0: Directory, m1: Memory, d1: Directory, root: nat,
                            g: Pa, h: Pa, a: Access, from: nat, s: nat, i: nat)
    requires 1 <= from <= s <= 2 && h + Span(from) <= ADDRESS_LIMIT
  {
    && (forall n :: n in d1 <==> n in d0 || (i > 0 && OnPath(n, g, from - 1, s - 1)))
    && (forall n :: n in d0 ==> n in d1 && d1[n] == d0[n])
    && (forall p: Pa :: Translate(m1, root, p) ==
          if SamePage(p, g, from) && Offset(p, from - 1) < i then SplitOutcome(h, a, from, p)
          else if SamePage(p, g, s) then NotPresent
          else Translate(m0, root, p))
  }

  /** Where a large leaf is, no table lies below it. */
  lemma NothingBelowLeaf(mem: Memory, root: nat, dir: Directory, g: Pa, s: nat, k: nat)
    requires WellFormed(mem, root, dir) && k < s <= 2 && NodeOf(g, s) in dir
    requires !IsPointer(mem[dir[NodeOf(g, s)]][Offset(g, s)], s)
    ensures NodeOf(g, k) !in dir
  {
    EntryStep(mem, root, dir, g, s);
    if NodeOf(g, k) in dir { PathIsClosed(mem, root, dir, g, k, s - 1); }
  }

  /** The entry of level `l` that `g` selects is clear. */
  ghost predicate ClearAt(mem: Memory, dir: Directory, g: Pa, l: nat)
    requires l <= 3
  {
    NodeOf(g, l) in dir && dir[NodeOf(g, l)] in mem && mem[dir[NodeOf(g, l)]][Offset(g, l)] == CLEARED
  }

  lemma SplitStart(m0: Memory, d0: Directory, m1: Memory, d1: Directory, root: nat, g: Pa, h: Pa, a: Access,
                   from: nat, s: nat)
    requires 1 <= from <= s <= 2 && h + Span(from) <= ADDRESS_LIMIT
    requires WellFormed(m0, root, d0) && WellFormed(m1, root, d1) && NodeOf(g, s) in d0
    requires !IsPointer(m0[d0[NodeOf(g, s)]][Offset(g, s)], s)
    requires Cut(m0, d0, m1, d1, root, NodeOf(g, s), Offset(g, s), Offset(g, s) + 1)
    ensures SplitUpTo(m0, d0, m1, d1, root, g, h, a, from, s, 0)
    ensures ClearAt(m1, d1, g, s)
  {
    hide WellFormed, Walk, Translate, SplitOutcome;
    var n, i := NodeOf(g, s), Offset(g, s);
    NothingBelowLeaf(m0, root, d0, g, s, s - 1);
    NodeOfChild(g, s);
    forall m | m in d0 ensures !(StrictlyUnder(m, n) && i <= Branch(m, n) < i + 1) {
      UnderChild(m, n, i);
      if Under(m, Child(n, i)) { UnderIsListed(m0, root, d0, m, Child(n, i)); }
    }
    forall p: Pa ensures SamePage(p, g, s) <==> NodeOf(p, s) == n && i <= Offset(p, s) < i + 1 {
      SamePageIndices(p, g, s);
    }
  }

  /** Mapping small page `i` is possible, and how many tables it needs. */
  lemma SplitReady(m0: Memory, d0: Directory, m1: Memory, d1: Directory, root: nat,
                   g: Pa, h: Pa, a: Access, from: nat, s: nat, i: nat)
    requires 1 <= from <= s <= 2 && h + Span(from) <= ADDRESS_LIMIT && i < 512
    requires g % Span(from) == 0 && g + Span(from) <= ADDRESS_LIMIT
    requires WellFormed(m0, root, d0) && WellFormed(m1, root, d1) && NodeOf(g, s) in d0
    requires !IsPointer(m0[d0[NodeOf(g, s)]][Offset(g, s)], s)
    requires SplitUpTo(m0, d0, m1, d1, root, g, h, a, from, s, i)
    requires i == 0 ==> ClearAt(m1, d1, g, s)
    ensures var q := SubPage(g, i, from);
            && NoLargeAbove(m1, d1, q, from - 1, 2)
            && (from == 2 ==> NodeOf(q, 0) !in d1)
            && Missing(d1, q, from - 1, 2) == if i == 0 then s - from + 1 else 0
  {
    var q := SubPage(g, i, from);
    SubPageNumber(g, i, from, g);
    SamePageUp(q, g, from, s + 1);
    SamePageUp(q, g, from, s);
    SamePageUp(q, g, from, 3);
    SamePageIndices(q, g, s);
    NothingBelowLeaf(m0, root, d0, q, s, from - 1);
    if from == 2 { NothingBelowLeaf(m0, root, d0, q, s, 0); }
    PathIsClosed(m0, root, d0, q, s, 2);
    if i == 0 {
      forall k | from - 1 < k <= 2 && NodeOf(q, k) in d1 ensures !EntryAt(m1, d1, q, k).large {
        if k > s {
          PathIsClosed(m1, root, d1, q, s, k - 1);
          EntryStep(m1, root, d1, q, k);
        } else if k < s {
          NothingBelowLeaf(m0, root, d0, q, s, k);
        }
      }
      if from < s { NothingBelowLeaf(m0, root, d0, q, s, from); }
    } else {
      assert OnPath(NodeOf(q, from - 1), g, from - 1, s - 1);
      PathPresent(m1, root, d1, q, from - 1);
    }
  }

  lemma SplitStep(m0: Memory, d0: Directory, m1: Memory, d1: Directory, m2: Memory, d2: Directory, root: nat,
                  g: Pa, h: Pa, a: Access, from: nat, s: nat, i: nat)
    requires 1 <= from <= s <= 2 && h + Span(from) <= ADDRESS_LIMIT && i < 512
    requires g % Span(from) == 0 && g + Span(from) <= ADDRESS_LIMIT
    requires WellFormed(m0, root, d0) && NodeOf(g, s) in d0
    requires SplitUpTo(m0, d0, m1, d1, root, g, h, a, from, s, i)
    requires MapPost(m1, d1, m2, d2, root, SubPage(g, i, from), SubPage(h, i, from), a, from - 1, 2)
    ensures SplitUpTo(m0, d0, m2, d2, root, g, h, a, from, s, i + 1)
  {
    var q := SubPage(g, i, from);
    SubPageNumber(g, i, from, g);
    forall k | from <= k + 1 <= 3 ensures NodeOf(q, k) == NodeOf(g, k) {
      SamePageUp(q, g, from, k + 1);
    }
    forall n ensures n in d2 <==> n in d0 || OnPath(n, g, from - 1, s - 1) {
      if OnPath(n, g, s, 2) { PathIsClosed(m0, root, d0, g, s, n.level); }
    }
    forall p: Pa
      ensures Translate(m2, root, p) ==
              if SamePage(p, g, from) && Offset(p, from - 1) < i + 1 then SplitOutcome(h, a, from, p)
              else if SamePage(p, g, s) then NotPresent
              else Translate(m0, root, p)
    {
      SubPageNumber(g, i, from, p);
    }
  }

  // -------- Joining

  /** The tables below the page of `g` are gone and the page is mapped as one; nothing else changed. */
  ghost predicate JoinPost(m0: Memory, d0: Directory, m1: Memory, d1: Directory, root: nat,
                           g: Pa, h: Pa, a: Access, to: nat)
    requires 1 <= to <= 2
  {
    && (forall n :: n in d1 <==> n in d0 && !Under(n, NodeOf(g, to - 1)))
    && (forall n :: n in d1 ==> d1[n] == d0[n])
    && (forall p: Pa :: Translate(m1, root, p) ==
                        if SamePage(p, g, to) then PageOutcome(h, a, to, p) else Translate(m0, root, p))
  }

  lemma JoinReady(m0: Memory, d0: Directory, m1: Memory, d1: Directory, root: nat, g: Pa, to: nat)
    requires 1 <= to <= 2 && WellFormed(m0, root, d0) && WellFormed(m1, root, d1) && NodeOf(g, to) in d0
    requires Cut(m0, d0, m1, d1, root, NodeOf(g, to), Offset(g, to), Offset(g, to) + 1)
    ensures NoLargeAbove(m1, d1, g, to, 2) && Missing(d1, g, to, 2) == 0
    ensures NodeOf(g, to - 1) !in d1
  {
    NodeOfChild(g, to);
    UnderChild(NodeOf(g, to - 1), NodeOf(g, to), Offset(g, to));
    PathPresent(m1, root, d1, g, to);
  }

  lemma JoinDone(m0: Memory, d0: Directory, m1: Memory, d1: Directory, m2: Memory, d2: Directory, root: nat,
                 g: Pa, h: Pa, a: Access, to: nat)
    requires 1 <= to <= 2 && WellFormed(m1, root, d1) && NodeOf(g, to) in d1
    requires Cut(m0, d0, m1, d1, root, NodeOf(g, to), Offset(g, to), Offset(g, to) + 1)
    requires MapPost(m1, d1, m2, d2, root, g, h, a, to, 2)
    ensures JoinPost(m0, d0, m2, d2, root, g, h, a, to)
  {
    NodeOfChild(g, to);
    forall n ensures n in d2 <==> n in d0 && !Under(n, NodeOf(g, to - 1)) {
      UnderChild(n, NodeOf(g, to), Offset(g, to));
      if OnPath(n, g, to, 2) { PathIsClosed(m1, root, d1, g, to, n.level); }
    }
    forall p: Pa
      ensures Translate(m2, root, p) ==
              if SamePage(p, g, to) then PageOutcome(h, a, to, p) else Translate(m0, root, p)
    {
      SamePageIndices(p, g, to);
    }
  }

  // -------- Split and join together

  /** Changes confined to the page of level `l` at `g`: its translations, and the tables below it. */
  ghost predicate Within(m0: Memory, d0: Directory, m1: Memory, d1: Directory, root: nat, g: Pa, l: nat)
    requires 1 <= l <= 2
  {
    && (forall n :: !Under(n, NodeOf(g, l - 1)) ==> (n in d0 <==> n in d1) && (n in d0 && n in d1 ==> d1[n] == d0[n]))
    && (forall p: Pa :: !SamePage(p, g, l) ==> Translate(m1, root, p) == Translate(m0, root, p))
  }

  lemma WithinTransitive(m0: Memory, d0: Directory, m1: Memory, d1: Directory, m2: Memory, d2: Directory,
                         root: nat, g: Pa, l: nat)
    requires 1 <= l <= 2 && Within(m0, d0, m1, d1, root, g, l) && Within(m1, d1, m2, d2, root, g, l)
    ensures Within(m0, d0, m2, d2, root, g, l)
  {
  }

  lemma {:induction false} SamePageNodeIsUnder(q: Pa, g: Pa, k: nat, l: nat)
    requires k < l <= 3 && SamePage(q, g, l)
    ensures Under(NodeOf(q, k), NodeOf(g, l - 1))
    decreases l - k
  {
    if k < l - 1 {
      NodeOfChild(q, k + 1);
      SamePageNodeIsUnder(q, g, k + 1, l);
    }
  }

  /** Remapping small pages of a page that has a table below it is confined to that page. */
  lemma MapIsWithin(m0: Memory, d0: Directory, m1: Memory, d1: Directory, root: nat,
                    g: Pa, q: Pa, h: Pa, a: Access, level: nat, l: nat)
    requires level < l <= 2 && SamePage(q, g, l)
    requires WellFormed(m0, root, d0) && NodeOf(g, l) in d0
    requires MapPost(m0, d0, m1, d1, root, q, h, a, level, 2)
    ensures Within(m0, d0, m1, d1, root, g, l)
  {
    forall n | !Under(n, NodeOf(g, l - 1)) ensures n in d0 <==> n in d1 {
      if OnPath(n, q, level, 2) {
        if n.level >= l {
          SamePageUp(q, g, l, n.level + 1);
          PathIsClosed(m0, root, d0, g, l, n.level);
        } else {
          SamePageNodeIsUnder(q, g, n.level, l);
        }
      }
    }
    forall p: Pa | !SamePage(p, g, l) ensures !SamePage(p, q, level) {
      if SamePage(p, q, level) { SamePageUp(p, q, level, l); }
    }
  }

  lemma SplitIsWithin(m0: Memory, d0: Directory, m1: Memory, d1: Directory, root: nat, g: Pa, h: Pa, a: Access,
                      from: nat)
    requires 1 <= from <= 2 && h + Span(from) <= ADDRESS_LIMIT
    requires SplitUpTo(m0, d0, m1, d1, root, g, h, a, from, from, 512)
    ensures Within(m0, d0, m1, d1, root, g, from)
  {
    assert Under(NodeOf(g, from - 1), NodeOf(g, from - 1));
  }

  /** Splitting a large page into small ones of the same host base and access changes no translation. */
  lemma SplitPreservesTranslation(m0: Memory, d0: Directory, m1: Memory, d1: Directory, root: nat,
                                  g: Pa, h: Pa, a: Access, from: nat)
    requires 1 <= from <= 2 && h % Span(from) == 0 && h + Span(from) <= ADDRESS_LIMIT
    requires forall p: Pa :: SamePage(p, g, from) ==> Translate(m0, root, p) == PageOutcome(h, a, from, p)
    requires SplitUpTo(m0, d0, m1, d1, root, g, h, a, from, from, 512)
    ensures forall p: Pa :: Translate(m1, root, p) == Translate(m0, root, p)
  {
    forall p: Pa ensures Translate(m1, root, p) == Translate(m0, root, p) {
      SplitOutcomeIsPageOutcome(h, a, from, p);
    }
  }

  /** The live tables are those in the directory: nothing is leaked. */
  lemma LiveTables(mem: Memory, root: nat, dir: Directory)
    requires WellFormed(mem, root, dir)
    ensures mem.Keys == dir.Values
  {
    forall f | f in mem ensures f in dir.Values {
    }
  }

  /** Join undoes split: whatever was remapped inside the page in between, the translation of every address and the set
      of live tables are what they were. */
  lemma JoinUndoesSplit(m0: Memory, d0: Directory, m1: Memory, d1: Directory, m2: Memory, d2: Directory,
                        m3: Memory, d3: Directory, root: nat, g: Pa, h: Pa, a: Access, l: nat)
    requires 1 <= l <= 2 && h + Span(l) <= ADDRESS_LIMIT
    requires WellFormed(m0, root, d0) && WellFormed(m3, root, d3) && NodeOf(g, l) in d0
    requires IsLeaf(m0[d0[NodeOf(g, l)]][Offset(g, l)], l)
    requires forall p: Pa :: SamePage(p, g, l) ==> Translate(m0, root, p) == PageOutcome(h, a, l, p)
    requires SplitUpTo(m0, d0, m1, d1, root, g, h, a, l, l, 512)
    requires Within(m1, d1, m2, d2, root, g, l)
    requires JoinPost(m2, d2, m3, d3, root, g, h, a, l)
    ensures forall p: Pa :: Translate(m3, root, p) == Translate(m0, root, p)
    ensures d3 == d0 && m3.Keys == m0.Keys
  {
    SplitIsWithin(m0, d0, m1, d1, root, g, h, a, l);
    WithinTransitive(m0, d0, m1, d1, m2, d2, root, g, l);
    NothingBelowLeaf(m0, root, d0, g, l, l - 1);
    forall n | n in d0 ensures !Under(n, NodeOf(g, l - 1)) {
      if Under(n, NodeOf(g, l - 1)) { UnderIsListed(m0, root, d0, n, NodeOf(g, l - 1)); }
    }
    assert d3 == d0;
    LiveTables(m0, root, d0);
    LiveTables(m3, root, d3);
  }

  lemma {:induction false} InjectiveSize(dir: Directory)
    requires forall m, n :: m in dir && n in dir && dir[m] == dir[n] ==> m == n
    ensures |dir.Values| == |dir.Keys|
    decreases |dir.Keys|
  {
    if dir.Keys == {} {
      assert dir.Values == {};
    } else {
      var k :| k in dir.Keys;
      var rest := dir - {k};
      assert rest.Keys == dir.Keys - {k};
      InjectiveSize(rest);
      assert dir.Values == rest.Values + {dir[k]} by {
        forall f | f in dir.Values ensures f in rest.Values + {dir[k]} {
          var n :| n in dir && dir[n] == f;
          if n != k { assert rest[n] == f; }
        }
      }
      assert dir[k] !in rest.Values;
    }
  }

  /** Conservation: the frames of the pool that are not free are exactly the tables below the root. */
  lemma FreeCount(mem: Memory, root: nat, dir: Directory, free: set<nat>, pool: set<nat>)
    requires WellFormed(mem, root, dir) && Conserved(mem, free, pool, root)
    ensures |free| + |dir.Keys| == |pool| + 1
  {
    LiveTables(mem, root, dir);
    InjectiveSize(dir);
    assert root in mem by { assert Listed(mem, dir, ROOT); }
    assert free + mem.Keys == pool + {root};
    assert free !! mem.Keys;
  }
}
