/** The no-sharing tree invariant of the extended page tables, and what each elementary change of the tables does to the
    translation of every address.

    The invariant is flat: a directory maps every region (a `Node`) that has a table to the frame of that table.  Tables
    of different regions are different frames, so no table can be reached along two paths. */
module EptTree {
  import opened Paging
  import opened EptWalk

  type Directory = map<Node, nat>

  ghost predicate Listed(mem: Memory, dir: Directory, n: Node) {
    && n in dir && n.level <= 3
    && dir[n] in mem
    && 0 < dir[n] < FRAME_LIMIT
    && (n.level == 3 ==> n == ROOT)
  }

  /** Entry `i` of the table of region `n`: clear if not present; a pointer exactly when the region below has a table.
      */
  ghost predicate EntryOk(mem: Memory, dir: Directory, n: Node, i: nat)
    requires Listed(mem, dir, n) && i < 512
  {
    var e := mem[dir[n]][i];
    && (!e.Present() ==> e == CLEARED)
    && e.pfn < FRAME_LIMIT
    && (n.level == 3 ==> !e.large)
    && (IsPointer(e, n.level) ==> e.access == READ_WRITE_EXECUTE && Child(n, i) in dir && dir[Child(n, i)] == e.pfn)
    && (n.level > 0 && Child(n, i) in dir ==> IsPointer(e, n.level))
  }

  ghost predicate WellFormed(mem: Memory, root: nat, dir: Directory) {
    && ROOT in dir && dir[ROOT] == root
    && (forall n :: n in dir ==> Listed(mem, dir, n))
    && (forall n {:trigger Parent(n)} :: n in dir && n != ROOT ==> Parent(n) in dir)
    && (forall m, n :: m in dir && n in dir && dir[m] == dir[n] ==> m == n)
    && (forall f {:trigger f in dir.Values} :: f in mem ==> f in dir.Values)
    && (forall n, i {:trigger EntryOk(mem, dir, n, i)} ::
          n in dir && Listed(mem, dir, n) && 0 <= i < 512 ==> EntryOk(mem, dir, n, i))
  }

  /** The entry that `p` selects in the table of the region of level `l`. */
  ghost function EntryAt(mem: Memory, dir: Directory, p: Pa, l: nat): Entry
    requires l <= 3 && NodeOf(p, l) in dir && dir[NodeOf(p, l)] in mem
  {
    mem[dir[NodeOf(p, l)]][Offset(p, l)]
  }

  // -------- Reaching a table

  /** Every table that covers `p` is on the walk of `p`, and no right is lost above it. */
  lemma {:induction false} WalkReaches(mem: Memory, root: nat, dir: Directory, p: Pa, l: nat)
    requires WellFormed(mem, root, dir) && l <= 3 && NodeOf(p, l) in dir
    ensures Translate(mem, root, p) == Walk(mem, dir[NodeOf(p, l)], l, p, READ_WRITE_EXECUTE)
    decreases 3 - l
  {
    if l == 3 {
      RootCovers(p);
    } else {
      NodeOfChild(p, l + 1);
      var up := NodeOf(p, l + 1);
      assert Listed(mem, dir, NodeOf(p, l)) && NodeOf(p, l) != ROOT;
      assert up in dir;
      assert EntryOk(mem, dir, up, Offset(p, l + 1));
      WalkReaches(mem, root, dir, p, l + 1);
    }
  }

  /** A walk reads only the entries that the address selects. */
  lemma {:induction false} WalkLocal(mem: Memory, mem': Memory, root: nat, dir: Directory, p: Pa, l: nat)
    requires WellFormed(mem, root, dir) && l <= 3 && NodeOf(p, l) in dir
    requires forall k :: 0 <= k <= l && NodeOf(p, k) in dir ==>
      dir[NodeOf(p, k)] in mem' && mem'[dir[NodeOf(p, k)]][Offset(p, k)] == mem[dir[NodeOf(p, k)]][Offset(p, k)]
    ensures Walk(mem', dir[NodeOf(p, l)], l, p, READ_WRITE_EXECUTE) ==
            Walk(mem, dir[NodeOf(p, l)], l, p, READ_WRITE_EXECUTE)
    decreases l
  {
    var n := NodeOf(p, l);
    assert EntryOk(mem, dir, n, Offset(p, l));
    var e := mem[dir[n]][Offset(p, l)];
    if IsPointer(e, l) {
      NodeOfChild(p, l);
      WalkLocal(mem, mem', root, dir, p, l - 1);
    }
  }

  lemma TranslateLocal(mem: Memory, mem': Memory, root: nat, dir: Directory, p: Pa)
    requires WellFormed(mem, root, dir)
    requires forall k :: 0 <= k <= 3 && NodeOf(p, k) in dir ==>
      dir[NodeOf(p, k)] in mem' && mem'[dir[NodeOf(p, k)]][Offset(p, k)] == mem[dir[NodeOf(p, k)]][Offset(p, k)]
    ensures Translate(mem', root, p) == Translate(mem, root, p)
  {
    RootCovers(p);
    WalkLocal(mem, mem', root, dir, p, 3);
  }

  // -------- Writing a leaf

  /** The state after entry `i` of the table of `n` is overwritten by `e`. */
  function SetEntry(mem: Memory, f: nat, i: nat, e: Entry): Memory
    requires f in mem && i < 512
  {
    mem[f := mem[f][i := e]]
  }

  lemma SetLeafWellFormed(mem: Memory, root: nat, dir: Directory, n: Node, i: nat, e: Entry)
    requires WellFormed(mem, root, dir) && n in dir && i < 512
    requires n.level <= 2 && e.pfn < FRAME_LIMIT
    requires IsLeaf(e, n.level) || e == CLEARED
    requires n.level > 0 ==> Child(n, i) !in dir
    ensures WellFormed(SetEntry(mem, dir[n], i, e), root, dir)
  {
    var mem' := SetEntry(mem, dir[n], i, e);
    assert forall m :: m in dir ==> Listed(mem', dir, m) by {
      assert forall m :: m in dir ==> Listed(mem, dir, m);
    }
    forall m, j | m in dir && 0 <= j < 512 ensures EntryOk(mem', dir, m, j) {
      assert EntryOk(mem, dir, m, j);
      if m != n { assert dir[m] != dir[n]; }
    }
  }

  /** Overwriting one entry changes the translation of the addresses that select it, and of no other. */
  lemma SetEntryLocal(mem: Memory, root: nat, dir: Directory, n: Node, i: nat, e: Entry, p: Pa)
    requires WellFormed(mem, root, dir) && n in dir && i < 512
    requires NodeOf(p, n.level) != n || Offset(p, n.level) != i
    ensures Translate(SetEntry(mem, dir[n], i, e), root, p) == Translate(mem, root, p)
  {
    assert Listed(mem, dir, n);
    var mem' := SetEntry(mem, dir[n], i, e);
    forall k | 0 <= k <= 3 && NodeOf(p, k) in dir
      ensures dir[NodeOf(p, k)] in mem'
      ensures mem'[dir[NodeOf(p, k)]][Offset(p, k)] == mem[dir[NodeOf(p, k)]][Offset(p, k)]
    {
      assert Listed(mem, dir, NodeOf(p, k));
    }
    TranslateLocal(mem, mem', root, dir, p);
  }

  lemma SetLeafTranslate(mem: Memory, root: nat, dir: Directory, n: Node, i: nat, e: Entry, p: Pa)
    requires WellFormed(mem, root, dir) && n in dir && i < 512
    requires n.level <= 2 && e.pfn < FRAME_LIMIT
    requires IsLeaf(e, n.level) || e == CLEARED
    requires n.level > 0 ==> Child(n, i) !in dir
    ensures Translate(SetEntry(mem, dir[n], i, e), root, p) ==
            if NodeOf(p, n.level) == n && Offset(p, n.level) == i
            then (if e == CLEARED then NotPresent else LeafOutcome(e, READ_WRITE_EXECUTE, n.level, p))
            else Translate(mem, root, p)
  {
    if NodeOf(p, n.level) == n && Offset(p, n.level) == i {
      SetLeafWellFormed(mem, root, dir, n, i, e);
      WalkReaches(SetEntry(mem, dir[n], i, e), root, dir, p, n.level);
    } else {
      SetEntryLocal(mem, root, dir, n, i, e, p);
    }
  }

  // -------- Adding an empty table

  function AddTable(mem: Memory, f: nat, i: nat, e: Entry, c: nat): Memory
    requires f in mem && i < 512
  {
    SetEntry(mem[c := EmptyTable()], f, i, e)
  }

  lemma AddTableEntry(mem: Memory, root: nat, dir: Directory, n: Node, i: nat, e: Entry, c: nat, m: Node, j: nat)
    requires WellFormed(mem, root, dir) && n in dir && i < 512 && j < 512
    requires 1 <= n.level <= 3 && !mem[dir[n]][i].Present()
    requires c !in mem && 0 < c < FRAME_LIMIT
    requires e.access == READ_WRITE_EXECUTE && !e.large && e.pfn == c
    requires m in dir || m == Child(n, i)
    requires Listed(AddTable(mem, dir[n], i, e, c), dir[Child(n, i) := c], m)
    ensures EntryOk(AddTable(mem, dir[n], i, e, c), dir[Child(n, i) := c], m, j)
  {
    var k := Child(n, i);
    assert EntryOk(mem, dir, n, i);
    if m in dir {
      assert Listed(mem, dir, m) && EntryOk(mem, dir, m, j);
      assert m != n ==> dir[m] != dir[n];
      if 1 <= m.level && Child(m, j) == k {
        assert m == n && j == i;
      }
    } else {
      assert k.level > 0 ==> Parent(Child(k, j)) == k;
    }
  }

  lemma AddTableWellFormed(mem: Memory, root: nat, dir: Directory, n: Node, i: nat, e: Entry, c: nat)
    requires WellFormed(mem, root, dir) && n in dir && i < 512
    requires 1 <= n.level <= 3 && !mem[dir[n]][i].Present()
    requires c !in mem && 0 < c < FRAME_LIMIT
    requires e.access == READ_WRITE_EXECUTE && !e.large && e.pfn == c
    ensures Child(n, i) !in dir
    ensures WellFormed(AddTable(mem, dir[n], i, e, c), root, dir[Child(n, i) := c])
  {
    assert Listed(mem, dir, n);
    assert EntryOk(mem, dir, n, i);
    var mem' := AddTable(mem, dir[n], i, e, c);
    var k := Child(n, i);
    var dir' := dir[k := c];
    assert Parent(k) == n;
    forall m | m in dir' ensures Listed(mem', dir', m) {
      if m != k { assert Listed(mem, dir, m); }
    }
    forall m, m' | m in dir' && m' in dir' && dir'[m] == dir'[m'] ensures m == m' {
      if m in dir { assert Listed(mem, dir, m); }
      if m' in dir { assert Listed(mem, dir, m'); }
    }
    forall f | f in mem' ensures f in dir'.Values {
      if f == c {
        assert dir'[k] == c;
      } else {
        assert f in dir.Values;
        var m :| m in dir && dir[m] == f;
        assert dir'[m] == f;
      }
    }
    forall m, j | m in dir' && 0 <= j < 512 ensures EntryOk(mem', dir', m, j) {
      AddTableEntry(mem, root, dir, n, i, e, c, m, j);
    }
  }

  lemma AddTableTranslate(mem: Memory, root: nat, dir: Directory, n: Node, i: nat, e: Entry, c: nat, p: Pa)
    requires WellFormed(mem, root, dir) && n in dir && i < 512
    requires 1 <= n.level <= 3 && !mem[dir[n]][i].Present()
    requires c !in mem && 0 < c < FRAME_LIMIT
    requires e.access == READ_WRITE_EXECUTE && !e.large && e.pfn == c
    ensures Translate(AddTable(mem, dir[n], i, e, c), root, p) == Translate(mem, root, p)
  {
    var mem' := AddTable(mem, dir[n], i, e, c);
    var k := Child(n, i);
    AddTableWellFormed(mem, root, dir, n, i, e, c);
    if NodeOf(p, n.level) == n && Offset(p, n.level) == i {
      NodeOfChild(p, n.level);
      WalkReaches(mem, root, dir, p, n.level);
      WalkReaches(mem', root, dir[k := c], p, k.level);
    } else {
      assert WellFormed(mem, root, dir);
      forall l | 0 <= l <= 3 && NodeOf(p, l) in dir
        ensures dir[NodeOf(p, l)] in mem'
        ensures mem'[dir[NodeOf(p, l)]][Offset(p, l)] == mem[dir[NodeOf(p, l)]][Offset(p, l)]
      {
        assert Listed(mem, dir, NodeOf(p, l));
      }
      TranslateLocal(mem, mem', root, dir, p);
    }
  }

  // -------- Removing a table

  function RemoveTable(mem: Memory, f: nat, i: nat, c: nat): Memory
    requires f in mem && f != c && i < 512
  {
    SetEntry(mem - {c}, f, i, CLEARED)
  }

  ghost predicate HasNoChild(dir: Directory, k: Node) {
    forall m {:trigger Parent(m)} :: m in dir ==> m == ROOT || Parent(m) != k
  }

  lemma RemoveTableEntry(mem: Memory, root: nat, dir: Directory, n: Node, i: nat, m: Node, j: nat)
    requires WellFormed(mem, root, dir) && n in dir && 1 <= n.level <= 3 && i < 512 && j < 512
    requires Child(n, i) in dir && dir[n] in mem && dir[n] != dir[Child(n, i)]
    requires m in dir && m != Child(n, i)
    requires Listed(RemoveTable(mem, dir[n], i, dir[Child(n, i)]), dir - {Child(n, i)}, m)
    ensures EntryOk(RemoveTable(mem, dir[n], i, dir[Child(n, i)]), dir - {Child(n, i)}, m, j)
  {
    assert Listed(mem, dir, m) && EntryOk(mem, dir, m, j);
    assert m != n ==> dir[m] != dir[n];
    if m.level > 0 && Child(m, j) == Child(n, i) {
      assert m == n && j == i;
    }
  }

  lemma RemoveTableWellFormed(mem: Memory, root: nat, dir: Directory, n: Node, i: nat)
    requires WellFormed(mem, root, dir) && n in dir && 1 <= n.level <= 3 && i < 512
    requires Child(n, i) in dir && HasNoChild(dir, Child(n, i))
    ensures dir[n] in mem && dir[n] != dir[Child(n, i)]
    ensures WellFormed(RemoveTable(mem, dir[n], i, dir[Child(n, i)]), root, dir - {Child(n, i)})
  {
    var k := Child(n, i);
    var c := dir[k];
    assert Listed(mem, dir, n) && Listed(mem, dir, k);
    assert n != k;
    var mem' := RemoveTable(mem, dir[n], i, c);
    var dir' := dir - {k};
    forall m | m in dir' ensures Listed(mem', dir', m) {
      assert Listed(mem, dir, m);
    }
    forall f | f in mem' ensures f in dir'.Values {
      assert f in dir.Values;
      var m :| m in dir && dir[m] == f;
      assert m in dir' && dir'[m] == f;
    }
    forall m, j | m in dir' && 0 <= j < 512 ensures EntryOk(mem', dir', m, j) {
      RemoveTableEntry(mem, root, dir, n, i, m, j);
    }
    forall m, m' | m in dir' && m' in dir' && dir'[m] == dir'[m'] ensures m == m' {
      assert dir[m] == dir[m'];
    }
  }

  lemma RemoveTableTranslate(mem: Memory, root: nat, dir: Directory, n: Node, i: nat, p: Pa)
    requires WellFormed(mem, root, dir) && n in dir && 1 <= n.level <= 3 && i < 512
    requires Child(n, i) in dir && HasNoChild(dir, Child(n, i))
    requires dir[n] in mem && dir[n] != dir[Child(n, i)]
    ensures Translate(RemoveTable(mem, dir[n], i, dir[Child(n, i)]), root, p) ==
            if NodeOf(p, n.level) == n && Offset(p, n.level) == i then NotPresent else Translate(mem, root, p)
  {
    var k := Child(n, i);
    var mem' := RemoveTable(mem, dir[n], i, dir[k]);
    var dir' := dir - {k};
    RemoveTableWellFormed(mem, root, dir, n, i);
    if NodeOf(p, n.level) == n && Offset(p, n.level) == i {
      WalkReaches(mem', root, dir', p, n.level);
    } else {
      forall l | 0 <= l <= 3 && NodeOf(p, l) in dir'
        ensures dir'[NodeOf(p, l)] in mem
        ensures mem[dir'[NodeOf(p, l)]][Offset(p, l)] == mem'[dir'[NodeOf(p, l)]][Offset(p, l)]
      {
        assert Listed(mem', dir', NodeOf(p, l));
      }
      TranslateLocal(mem', mem, root, dir', p);
    }
  }

  // -------- Regions below a region

  /** The region of level `l` that contains the region `m`. */
  ghost function Ancestor(m: Node, l: nat): (a: Node)
    requires m.level <= l
    ensures a.level == l
    decreases l - m.level
  {
    if m.level == l then m else Ancestor(Parent(m), l)
  }

  ghost predicate Under(m: Node, k: Node) {
    m.level <= k.level && Ancestor(m, k.level) == k
  }

  ghost predicate StrictlyUnder(m: Node, k: Node) {
    m.level < k.level && Ancestor(m, k.level) == k
  }

  /** The entry of the table of `k` that leads to `m`. */
  ghost function Branch(m: Node, k: Node): nat
    requires StrictlyUnder(m, k)
  {
    Ancestor(m, k.level - 1).prefix % 512
  }

  lemma {:induction false} AncestorStep(m: Node, l: nat)
    requires m.level <= l
    ensures Ancestor(m, l + 1) == Parent(Ancestor(m, l))
    decreases l - m.level
  {
    if m.level < l {
      AncestorStep(Parent(m), l);
    }
  }

  lemma UnderChild(m: Node, k: Node, i: nat)
    requires 1 <= k.level <= 3 && i < 512
    ensures Under(m, Child(k, i)) <==> StrictlyUnder(m, k) && Branch(m, k) == i
  {
    if m.level <= k.level - 1 {
      AncestorStep(m, k.level - 1);
    }
  }

  /** A region with a table below `k` puts `k` in the directory. */
  lemma {:induction false} UnderIsListed(mem: Memory, root: nat, dir: Directory, m: Node, k: Node)
    requires WellFormed(mem, root, dir) && m in dir && Under(m, k) && k.level <= 3
    ensures k in dir
    decreases k.level - m.level
  {
    if m.level < k.level {
      assert Parent(m) in dir;
      UnderIsListed(mem, root, dir, Parent(m), k);
    }
  }

  // -------- Unmapping entries

  /** Entries `lo` to `hi` of the table of `n` are unmapped: they are clear, the tables below them are gone, the
      addresses that select them do not translate, and nothing else changed. */
  ghost predicate Cut(m0: Memory, d0: Directory, m1: Memory, d1: Directory, root: nat, n: Node, lo: nat, hi: nat)
    requires n.level <= 3
  {
    && n in d0 && n in d1 && d0[n] in m0 && d0[n] in m1
    && (forall m :: m in d1 <==> m in d0 && !(StrictlyUnder(m, n) && lo <= Branch(m, n) < hi))
    && (forall m :: m in d1 ==> d1[m] == d0[m])
    && (forall m :: m in d1 && m != n ==> d0[m] in m0 && d0[m] in m1 && m1[d0[m]] == m0[d0[m]])
    && (forall j :: 0 <= j < 512 ==> m1[d0[n]][j] == if lo <= j < hi then CLEARED else m0[d0[n]][j])
    && (forall p: Pa :: Translate(m1, root, p) ==
                        if NodeOf(p, n.level) == n && lo <= Offset(p, n.level) < hi then NotPresent
                        else Translate(m0, root, p))
  }

  lemma CutNothing(mem: Memory, root: nat, dir: Directory, n: Node, lo: nat)
    requires WellFormed(mem, root, dir) && n in dir
    ensures n.level <= 3 && Cut(mem, dir, mem, dir, root, n, lo, lo)
  {
    assert Listed(mem, dir, n);
  }

  lemma CutCompose(m0: Memory, d0: Directory, m1: Memory, d1: Directory, m2: Memory, d2: Directory,
                   root: nat, n: Node, lo: nat, mid: nat, hi: nat)
    requires n.level <= 3 && lo <= mid <= hi
    requires Cut(m0, d0, m1, d1, root, n, lo, mid) && Cut(m1, d1, m2, d2, root, n, mid, hi)
    ensures Cut(m0, d0, m2, d2, root, n, lo, hi)
  {
  }

  /** Unmapping a leaf, or an entry that is clear already. */
  lemma CutLeaf(mem: Memory, root: nat, dir: Directory, n: Node, i: nat)
    requires WellFormed(mem, root, dir) && n in dir && i < 512 && n.level >= 1
    requires !IsPointer(mem[dir[n]][i], n.level)
    ensures n.level <= 3
    ensures WellFormed(SetEntry(mem, dir[n], i, CLEARED), root, dir)
    ensures Cut(mem, dir, SetEntry(mem, dir[n], i, CLEARED), dir, root, n, i, i + 1)
  {
    assert EntryOk(mem, dir, n, i);
    var mem' := SetEntry(mem, dir[n], i, CLEARED);
    if n.level == 3 {
      assert mem[dir[n]][i] == CLEARED && mem[dir[n]] == mem[dir[n]][i := CLEARED];
      assert mem' == mem;
    } else {
      SetLeafWellFormed(mem, root, dir, n, i, CLEARED);
    }
    forall p: Pa
      ensures Translate(mem', root, p) ==
              if NodeOf(p, n.level) == n && Offset(p, n.level) == i then NotPresent else Translate(mem, root, p)
    {
      if n.level < 3 {
        SetLeafTranslate(mem, root, dir, n, i, CLEARED, p);
      } else if NodeOf(p, 3) == n && Offset(p, 3) == i {
        WalkReaches(mem, root, dir, p, 3);
      }
    }
    forall m | m in dir ensures !(StrictlyUnder(m, n) && Branch(m, n) == i) {
      UnderChild(m, n, i);
      if Under(m, Child(n, i)) { UnderIsListed(mem, root, dir, m, Child(n, i)); }
    }
  }

  /** Nothing is left below the table of `k`, and outside it nothing changed. */
  ghost predicate Hollow(m0: Memory, d0: Directory, m1: Memory, d1: Directory, root: nat, k: Node)
    requires k.level <= 3
  {
    && k in d0 && k in d1
    && (forall m :: m in d1 <==> m in d0 && !StrictlyUnder(m, k))
    && (forall m :: m in d1 ==> d1[m] == d0[m])
    && (forall m :: m in d1 && m != k ==> d0[m] in m0 && d0[m] in m1 && m1[d0[m]] == m0[d0[m]])
    && (forall p: Pa :: NodeOf(p, k.level) != k ==> Translate(m1, root, p) == Translate(m0, root, p))
  }

  lemma CutIsHollow(m0: Memory, d0: Directory, m1: Memory, d1: Directory, root: nat, k: Node)
    requires k.level <= 3 && Cut(m0, d0, m1, d1, root, k, 0, 512)
    ensures Hollow(m0, d0, m1, d1, root, k)
  {
  }

  /** The entries of a page table are host pages: there is nothing below them. */
  lemma PtIsHollow(mem: Memory, root: nat, dir: Directory, k: Node)
    requires WellFormed(mem, root, dir) && k in dir && k.level == 0
    ensures Hollow(mem, dir, mem, dir, root, k)
  {
  }

  lemma ParentIsAbove(m: Node)
    ensures StrictlyUnder(m, Parent(m))
  {
    assert Ancestor(m, m.level + 1) == Parent(m);
  }

  lemma CutPointerTranslate(m0: Memory, d0: Directory, mem: Memory, dir: Directory, root: nat, n: Node, i: nat, p: Pa)
    requires WellFormed(mem, root, dir)
    requires n in dir && 1 <= n.level <= 3 && i < 512 && Child(n, i) in dir
    requires HasNoChild(dir, Child(n, i)) && dir[n] in mem && dir[n] != dir[Child(n, i)]
    requires Hollow(m0, d0, mem, dir, root, Child(n, i))
    ensures Translate(RemoveTable(mem, dir[n], i, dir[Child(n, i)]), root, p) ==
            if NodeOf(p, n.level) == n && i <= Offset(p, n.level) < i + 1 then NotPresent else Translate(m0, root, p)
  {
    RemoveTableTranslate(mem, root, dir, n, i, p);
    ChildCovers(p, n, i);
  }

  lemma CutPointerDirectory(d0: Directory, dir: Directory, n: Node, i: nat)
    requires 1 <= n.level <= 3 && i < 512
    requires forall m :: m in dir <==> m in d0 && !StrictlyUnder(m, Child(n, i))
    ensures forall m :: m in dir - {Child(n, i)} <==>
                        m in d0 && !(StrictlyUnder(m, n) && i <= Branch(m, n) < i + 1)
  {
    forall m
      ensures m in dir - {Child(n, i)} <==> m in d0 && !(StrictlyUnder(m, n) && i <= Branch(m, n) < i + 1)
    {
      UnderChild(m, n, i);
    }
  }

  /** Unmapping an entry whose table has just been emptied: the table itself goes. */
  lemma CutPointer(m0: Memory, d0: Directory, mem: Memory, dir: Directory, root: nat, n: Node, i: nat)
    requires WellFormed(m0, root, d0) && WellFormed(mem, root, dir)
    requires n in d0 && 1 <= n.level <= 3 && i < 512 && Child(n, i) in d0
    requires Hollow(m0, d0, mem, dir, root, Child(n, i))
    ensures n in dir && Child(n, i) in dir && dir[n] == d0[n] && dir[Child(n, i)] == d0[Child(n, i)]
    ensures dir[n] in mem && dir[n] != dir[Child(n, i)]
    ensures WellFormed(RemoveTable(mem, dir[n], i, dir[Child(n, i)]), root, dir - {Child(n, i)})
    ensures Cut(m0, d0, RemoveTable(mem, dir[n], i, dir[Child(n, i)]), dir - {Child(n, i)}, root, n, i, i + 1)
  {
    var k := Child(n, i);
    assert !StrictlyUnder(n, k);
    forall m | m in dir && m != ROOT ensures Parent(m) != k {
      ParentIsAbove(m);
    }
    RemoveTableWellFormed(mem, root, dir, n, i);
    var mem', dir' := RemoveTable(mem, dir[n], i, dir[k]), dir - {k};
    forall p: Pa
      ensures Translate(mem', root, p) ==
              if NodeOf(p, n.level) == n && i <= Offset(p, n.level) < i + 1 then NotPresent else Translate(m0, root, p)
    {
      CutPointerTranslate(m0, d0, mem, dir, root, n, i, p);
    }
    CutPointerDirectory(d0, dir, n, i);
  }
}
