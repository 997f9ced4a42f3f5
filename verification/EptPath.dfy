/** The path of an address through the tables: what it takes to map a page, and what mapping promises. */
module EptPath {
  import opened Paging
  import opened EptWalk
  import opened EptTree

  /** No large page lies above the level at which `g` is to be mapped. */
  ghost predicate NoLargeAbove(mem: Memory, dir: Directory, g: Pa, level: nat, top: nat)
    requires top <= 3
  {
    forall k :: level < k <= top && NodeOf(g, k) in dir && dir[NodeOf(g, k)] in mem ==> !EntryAt(mem, dir, g, k).large
  }

  ghost predicate OnPath(n: Node, g: Pa, level: nat, top: nat)
    requires top <= 3
  {
    level <= n.level <= top && n == NodeOf(g, n.level)
  }

  /** How many tables of levels `level` to `top` the path to `g` lacks. */
  ghost function Missing(dir: Directory, g: Pa, level: nat, top: nat): nat
    requires top <= 3
    decreases top
  {
    (if level <= top && NodeOf(g, top) !in dir then 1 else 0) +
    (if level < top then Missing(dir, g, level, top - 1) else 0)
  }

  lemma {:induction false} PathIsClosed(mem: Memory, root: nat, dir: Directory, g: Pa, k: nat, l: nat)
    requires WellFormed(mem, root, dir) && k <= l <= 3 && NodeOf(g, k) in dir
    ensures NodeOf(g, l) in dir
    decreases l - k
  {
    if k < l {
      NodeOfChild(g, k + 1);
      assert Listed(mem, dir, NodeOf(g, k));
      PathIsClosed(mem, root, dir, g, k + 1, l);
    }
  }

  lemma {:induction false} MissingSame(dir: Directory, dir': Directory, g: Pa, level: nat, top: nat)
    requires level <= top <= 3
    requires forall n: Node :: n.level <= top ==> (n in dir <==> n in dir')
    ensures Missing(dir, g, level, top) == Missing(dir', g, level, top)
    decreases top
  {
    if level < top {
      MissingSame(dir, dir', g, level, top - 1);
    }
  }

  /** What map_pdpt, map_pd and map_pt promise when they start at the table of level `top`: a flat update of the
      translation, with exactly the missing tables of the path added. */
  ghost predicate MapPost(m0: Memory, d0: Directory, m1: Memory, d1: Directory, root: nat,
                          g: Pa, h: Pa, a: Access, level: nat, top: nat)
    requires level <= 2 && top <= 3
  {
    && (forall n :: n in d1 <==> n in d0 || OnPath(n, g, level, top))
    && (forall n :: n in d0 ==> n in d1 && d1[n] == d0[n])
    && (forall p: Pa :: Translate(m1, root, p) ==
                        if SamePage(p, g, level) then PageOutcome(h, a, level, p) else Translate(m0, root, p))
  }

  /** The tables of `dir`, except that of `n`, have the same entries in both memories. */
  ghost predicate SameTables(m0: Memory, m1: Memory, dir: Directory, n: Node) {
    forall m :: m in dir && m != n ==> dir[m] in m0 && dir[m] in m1 && m1[dir[m]] == m0[dir[m]]
  }

  /** Every frame of the pool is either free or a live table, and the only other table is the root. */
  ghost predicate Conserved(mem: Memory, free: set<nat>, pool: set<nat>, root: nat) {
    && root !in pool
    && (forall f :: f in pool ==> 0 < f < FRAME_LIMIT)
    && (forall f :: f in free ==> f !in mem && f in pool)
    && (forall f :: f in mem ==> f == root || f in pool)
    && (forall f :: f in pool ==> f in free || f in mem)
  }

  lemma EntryFacts(mem: Memory, root: nat, dir: Directory, n: Node, i: nat)
    requires WellFormed(mem, root, dir) && n in dir && i < 512
    ensures Listed(mem, dir, n) && EntryOk(mem, dir, n, i)
  {
  }

  /** What map_subtable promises about the table of entry `i` of region `n`: it is in frame `c`, all other tables are as
      before, and no address translates differently. */
  ghost predicate Extended(m0: Memory, d0: Directory, m1: Memory, d1: Directory, root: nat, n: Node, i: nat, c: nat)
    requires 1 <= n.level <= 3 && i < 512
  {
    && d1.Keys == d0.Keys + {Child(n, i)} && d1[Child(n, i)] == c
    && (forall m :: m in d0 ==> m in d1 && d1[m] == d0[m])
    && SameTables(m0, m1, d0, n)
    && (Child(n, i) !in d0 ==> c in m1 && m1[c] == EmptyTable())
    && (forall p: Pa :: Translate(m1, root, p) == Translate(m0, root, p))
  }

  lemma ExtendedByNewTable(mem: Memory, root: nat, dir: Directory, n: Node, i: nat, e: Entry, c: nat,
                           free: set<nat>, pool: set<nat>)
    requires WellFormed(mem, root, dir) && n in dir && i < 512
    requires Conserved(mem, free, pool, root) && c in free
    requires 1 <= n.level <= 3 && !mem[dir[n]][i].Present()
    requires e == mem[dir[n]][i].Update(c * 0x1000, READ_WRITE_EXECUTE)
    ensures Child(n, i) !in dir
    ensures WellFormed(AddTable(mem, dir[n], i, e, c), root, dir[Child(n, i) := c])
    ensures Conserved(AddTable(mem, dir[n], i, e, c), free - {c}, pool, root)
    ensures Extended(mem, dir, AddTable(mem, dir[n], i, e, c), dir[Child(n, i) := c], root, n, i, c)
  {
    assert EntryOk(mem, dir, n, i);
    AddTableWellFormed(mem, root, dir, n, i, e, c);
    forall p: Pa ensures Translate(AddTable(mem, dir[n], i, e, c), root, p) == Translate(mem, root, p) {
      AddTableTranslate(mem, root, dir, n, i, e, c, p);
    }
  }

  /** Writing a leaf of level `l` into the table on the path of `g` is the flat update of the page of `g`. */
  lemma MapLeaf(mem: Memory, root: nat, dir: Directory, g: Pa, h: Pa, a: Access, l: nat, e: Entry)
    requires WellFormed(mem, root, dir) && l <= 2 && NodeOf(g, l) in dir && a != NONE
    requires l > 0 ==> NodeOf(g, l - 1) !in dir
    requires e.access == a && e.pfn == h / 0x1000 && (l > 0 ==> e.large)
    ensures WellFormed(SetEntry(mem, dir[NodeOf(g, l)], Offset(g, l), e), root, dir)
    ensures MapPost(mem, dir, SetEntry(mem, dir[NodeOf(g, l)], Offset(g, l), e), dir, root, g, h, a, l, l)
  {
    var n, i := NodeOf(g, l), Offset(g, l);
    if l > 0 { NodeOfChild(g, l); }
    assert e.pfn < FRAME_LIMIT;
    SetLeafWellFormed(mem, root, dir, n, i, e);
    forall p: Pa
      ensures Translate(SetEntry(mem, dir[n], i, e), root, p) ==
              if SamePage(p, g, l) then PageOutcome(h, a, l, p) else Translate(mem, root, p)
    {
      SamePageIndices(p, g, l);
      SetLeafTranslate(mem, root, dir, n, i, e, p);
    }
  }

  lemma NextEntry(mem: Memory, root: nat, dir: Directory, g: Pa, level: nat, top: nat)
    requires WellFormed(mem, root, dir) && level < top <= 3 && NodeOf(g, top) in dir
    requires NoLargeAbove(mem, dir, g, level, if top == 3 then 2 else top)
    ensures dir[NodeOf(g, top)] in mem && !mem[dir[NodeOf(g, top)]][Offset(g, top)].large
    ensures NoLargeAbove(mem, dir, g, level, top)
  {
    assert EntryOk(mem, dir, NodeOf(g, top), Offset(g, top));
    assert top < 3 ==> !EntryAt(mem, dir, g, top).large;
  }

  /** Once the next table of the path exists, the rest of the path is ready to be mapped. */
  lemma Descend(m0: Memory, d0: Directory, m1: Memory, d1: Directory, root: nat, g: Pa, level: nat, top: nat, c: nat)
    requires level < top <= 3 && NodeOf(g, top) in d0
    requires WellFormed(m0, root, d0) && WellFormed(m1, root, d1)
    requires Extended(m0, d0, m1, d1, root, NodeOf(g, top), Offset(g, top), c)
    requires NoLargeAbove(m0, d0, g, level, top)
    ensures NodeOf(g, top - 1) in d1 && d1[NodeOf(g, top - 1)] == c
    ensures Child(NodeOf(g, top), Offset(g, top)) == NodeOf(g, top - 1)
    ensures NoLargeAbove(m1, d1, g, level, top - 1)
    ensures level > 0 && NodeOf(g, level - 1) !in d0 ==> NodeOf(g, level - 1) !in d1
    ensures Missing(d0, g, level, top) ==
            Missing(d1, g, level, top - 1) + (if NodeOf(g, top - 1) in d0 then 0 else 1)
  {
    hide Walk, Translate, EntryOk;
    NodeOfChild(g, top);
    assert forall n :: n in d1 <==> n in d0.Keys + {NodeOf(g, top - 1)};
    if level < top - 1 {
      MissingSame(d0, d1, g, level, top - 2);
    }
    forall k | level < k <= top - 1 && NodeOf(g, k) in d1 && d1[NodeOf(g, k)] in m1
      ensures !EntryAt(m1, d1, g, k).large
    {
      if NodeOf(g, k) in d0 {
        assert Listed(m0, d0, NodeOf(g, k));
        assert !EntryAt(m0, d0, g, k).large;
      }
    }
  }

  /** Adding a table on the way and then mapping below it is mapping from the level above. */
  lemma MapPostStep(m0: Memory, d0: Directory, m1: Memory, d1: Directory, m2: Memory, d2: Directory, root: nat,
                    g: Pa, h: Pa, a: Access, level: nat, top: nat, c: nat)
    requires level <= 2 && level < top <= 3 && NodeOf(g, top) in d0
    requires Extended(m0, d0, m1, d1, root, NodeOf(g, top), Offset(g, top), c)
    requires MapPost(m1, d1, m2, d2, root, g, h, a, level, top - 1)
    ensures MapPost(m0, d0, m2, d2, root, g, h, a, level, top)
  {
    NodeOfChild(g, top);
    forall n ensures n in d2 <==> n in d0 || OnPath(n, g, level, top) {
      assert n in d1 <==> n in d0.Keys + {NodeOf(g, top - 1)};
    }
  }

  lemma MapPostRoot(m0: Memory, d0: Directory, m1: Memory, d1: Directory, root: nat, g: Pa, h: Pa, a: Access,
                    level: nat)
    requires level <= 2 && WellFormed(m0, root, d0)
    requires MapPost(m0, d0, m1, d1, root, g, h, a, level, 3)
    ensures MapPost(m0, d0, m1, d1, root, g, h, a, level, 2)
  {
    RootCovers(g);
  }

  lemma ConservedRemove(mem: Memory, free: set<nat>, pool: set<nat>, root: nat, c: nat, f: nat, i: nat)
    requires Conserved(mem, free, pool, root) && c in mem && c != root && c != f && f in mem && i < 512
    ensures c !in free
    ensures Conserved(RemoveTable(mem, f, i, c), free + {c}, pool, root)
  {
  }

  lemma {:induction false} UnderRoot(mem: Memory, root: nat, dir: Directory, m: Node)
    requires WellFormed(mem, root, dir) && m in dir
    ensures m != ROOT ==> StrictlyUnder(m, ROOT)
    decreases 3 - m.level
  {
    if m != ROOT {
      UnderRoot(mem, root, dir, Parent(m));
    }
  }

  lemma OnlyRootLeft(m0: Memory, d0: Directory, m1: Memory, d1: Directory, root: nat)
    requires WellFormed(m0, root, d0) && WellFormed(m1, root, d1)
    requires Cut(m0, d0, m1, d1, root, ROOT, 0, 512)
    ensures d1 == map[ROOT := root] && m1.Keys == {root} && m1[root] == EmptyTable()
  {
    forall m | m in d1 ensures m == ROOT {
      UnderRoot(m0, root, d0, m);
    }
    forall f | f in m1 ensures f == root {
      assert f in d1.Values;
    }
    assert m1[root] == EmptyTable();
  }
}
