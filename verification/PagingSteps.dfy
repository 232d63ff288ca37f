/** What one table write does to every address space's translations. Everything is said through
    Lookup, so that a write, a new table and an or of flags are all "one entry replaced". */
module PagingSteps {
  import opened Words
  import opened Slabs
  import opened SlabOwnership
  import opened SlabCalls
  import opened Paging

  /** pt' differs from pt in entry pos of table t only. */
  ghost predicate Replaced(pt: map<nat, Table>, pt': map<nat, Table>, t: nat, pos: nat, e: Entry)
  {
    && Lookup(pt', t, pos) == e
    && forall u: nat, p: nat {:trigger Lookup(pt', u, p)} {:trigger Lookup(pt, u, p)} ::
         u != t || p != pos ==> Lookup(pt', u, p) == Lookup(pt, u, p)
  }

  lemma SetEntryReplaces(pt: map<nat, Table>, t: nat, pos: nat, e: Entry)
    requires t in pt && pos < |pt[t]|
    ensures Replaced(pt, SetEntry(pt, t, pos, e), t, pos, e)
  {
  }

  lemma NewTableReplaces(pt: map<nat, Table>, n: nat, t: nat, pos: nat, e: Entry)
    requires n !in pt && t in pt && pos < |pt[t]|
    ensures Replaced(pt, SetEntry(pt[n := NoEntries()], t, pos, e), t, pos, e)
  {
  }

  /** Address spaces r and root agree below entry a because they share the table there. */
  predicate Shares(pt: map<nat, Table>, r: nat, root: nat, a: nat)
  {
    || r == root
    || (Lookup(pt, r, a) != EMPTY && Lookup(pt, root, a) != EMPTY && Lookup(pt, r, a).base == Lookup(pt, root, a).base)
  }

  /** The tables a walk for slot x comes through. */
  function Table3(pt: map<nat, Table>, root: nat, x: Slot): (r: nat) { Lookup(pt, root, x.a).base }

  function Table2(pt: map<nat, Table>, root: nat, x: Slot): (r: nat) { Lookup(pt, Table3(pt, root, x), x.b).base }

  predicate Reaches2(pt: map<nat, Table>, root: nat, x: Slot)
  {
    Lookup(pt, root, x.a) != EMPTY && Lookup(pt, Table3(pt, root, x), x.b) != EMPTY
  }

  ghost predicate SameWalks(pt: map<nat, Table>, pt': map<nat, Table>, l: Levels)
  {
    forall r, x: Slot | r in l.l4 :: Walk(pt', r, x) == Walk(pt, r, x)
  }

  /** Upper-level entries that were there lead where they led, and no space came to share a table
      with another by the write. */
  ghost predicate SameShares(pt: map<nat, Table>, pt': map<nat, Table>, l: Levels)
  {
    && (forall r, p: nat | r in l.l4 && Lookup(pt, r, p) != EMPTY ::
          Lookup(pt', r, p) != EMPTY && Lookup(pt', r, p).base == Lookup(pt, r, p).base)
    && (forall r, u, p: nat | r in l.l4 && u in l.l4 :: Shares(pt', r, u, p) <==> Shares(pt, r, u, p))
  }

  /** Entry pos of table t gained these flags; no other entry changed. */
  ghost predicate FlagsAdded(pt: map<nat, Table>, pt': map<nat, Table>, t: nat, pos: nat, flags: set<Flag>)
  {
    forall u: nat, p: nat {:trigger Lookup(pt', u, p)} {:trigger Lookup(pt, u, p)} ::
      if u == t && p == pos then Lookup(pt', u, p).flags == Lookup(pt, u, p).flags + flags
      else Lookup(pt', u, p) == Lookup(pt, u, p)
  }

  /** No entry outside the leaf tables lost a flag. */
  ghost predicate FlagsKept(pt: map<nat, Table>, pt': map<nat, Table>, leaf: set<nat>)
  {
    forall u: nat, p: nat {:trigger Lookup(pt', u, p)} {:trigger Lookup(pt, u, p)} ::
      u !in leaf ==> Lookup(pt, u, p).flags <= Lookup(pt', u, p).flags
  }

  /** Tables were only added, and upper entries lost no flag. */
  ghost predicate UpperKept(pt: map<nat, Table>, pt': map<nat, Table>, l: Levels, l': Levels)
  {
    l.l3 <= l'.l3 && l.l2 <= l'.l2 && FlagsKept(pt, pt', l'.l2)
  }

  lemma UpperKeptChain(pt: map<nat, Table>, pt1: map<nat, Table>, pt2: map<nat, Table>, l: Levels, l1: Levels, l2: Levels)
    requires UpperKept(pt, pt1, l, l1) && UpperKept(pt1, pt2, l1, l2)
    ensures UpperKept(pt, pt2, l, l2)
  {
    forall u: nat, p: nat | u !in l2.l2 ensures Lookup(pt, u, p).flags <= Lookup(pt2, u, p).flags {
      assert Lookup(pt, u, p).flags <= Lookup(pt1, u, p).flags;
    }
  }

  // ----- flags or'ed into an upper entry -----

  lemma FlagsKeepTree(pt: map<nat, Table>, pt': map<nat, Table>, l: Levels, t: nat, pos: nat, e: Entry)
    requires Linked(pt, l) && Unshared(pt, l) && l.l4 !! l.l3 && (t in l.l4 || t in l.l3)
    requires Lookup(pt, t, pos) != EMPTY && e != EMPTY && e.base == Lookup(pt, t, pos).base
    requires Replaced(pt, pt', t, pos, e)
    ensures Linked(pt', l) && Unshared(pt', l)
  {
  }

  lemma FlagsKeepWalks(pt: map<nat, Table>, pt': map<nat, Table>, l: Levels, t: nat, pos: nat, e: Entry)
    requires Linked(pt, l) && l.l4 !! l.l2 && l.l3 !! l.l2 && (t in l.l4 || t in l.l3)
    requires Lookup(pt, t, pos) != EMPTY && e != EMPTY && e.base == Lookup(pt, t, pos).base
    requires Replaced(pt, pt', t, pos, e)
    ensures SameWalks(pt, pt', l) && SameShares(pt, pt', l)
  {
  }

  // ----- a new table hung below an empty entry -----

  lemma NewKeepsTree4(pt: map<nat, Table>, pt': map<nat, Table>, l: Levels, t: nat, pos: nat, e: Entry)
    requires Linked(pt, l) && Unshared(pt, l) && t in l.l4 && l.l4 !! l.l3
    requires Lookup(pt, t, pos) == EMPTY && e != EMPTY && Replaced(pt, pt', t, pos, e)
    requires e.base !in l.l3 && e.base !in l.l4 && forall p: nat :: Lookup(pt, e.base, p) == EMPTY
    ensures Linked(pt', l.(l3 := l.l3 + {e.base})) && Unshared(pt', l.(l3 := l.l3 + {e.base}))
  {
  }

  lemma NewKeepsTree3(pt: map<nat, Table>, pt': map<nat, Table>, l: Levels, t: nat, pos: nat, e: Entry)
    requires Linked(pt, l) && Unshared(pt, l) && t in l.l3 && l.l4 !! l.l3
    requires Lookup(pt, t, pos) == EMPTY && e != EMPTY && Replaced(pt, pt', t, pos, e)
    requires e.base !in l.l2
    ensures Linked(pt', l.(l2 := l.l2 + {e.base})) && Unshared(pt', l.(l2 := l.l2 + {e.base}))
  {
  }

  lemma NewKeepsWalks(pt: map<nat, Table>, pt': map<nat, Table>, l: Levels, t: nat, pos: nat, e: Entry)
    requires Linked(pt, l) && l.l4 !! l.l2 && l.l3 !! l.l2 && l.l4 !! l.l3 && (t in l.l4 || t in l.l3)
    requires Lookup(pt, t, pos) == EMPTY && e != EMPTY && Replaced(pt, pt', t, pos, e)
    requires t != e.base && forall p: nat :: Lookup(pt, e.base, p) == EMPTY
    requires e.base !in l.l3
    ensures SameWalks(pt, pt', l) && SameShares(pt, pt', l)
  {
  }

  // ----- a leaf entry written -----

  lemma LeafKeepsTree(pt: map<nat, Table>, pt': map<nat, Table>, l: Levels, t: nat, pos: nat, e: Entry)
    requires Linked(pt, l) && Unshared(pt, l) && l.l4 !! l.l2 && l.l3 !! l.l2 && t in l.l2
    requires Replaced(pt, pt', t, pos, e)
    ensures Linked(pt', l) && Unshared(pt', l) && SameShares(pt, pt', l)
  {
  }

  /** Writing the leaf for slot x through root changes what x means in root and in the spaces that
      share the table, and nothing else anywhere. */
  lemma LeafWalks(pt: map<nat, Table>, pt': map<nat, Table>, l: Levels, root: nat, x: Slot, e: Entry, r: nat, y: Slot)
    requires Linked(pt, l) && Unshared(pt, l) && l.l4 !! l.l2 && l.l3 !! l.l2
    requires root in l.l4 && r in l.l4 && Reaches2(pt, root, x)
    requires Replaced(pt, pt', Table2(pt, root, x), x.c, e)
    ensures Walk(pt', r, y) ==
      if y == x && Shares(pt, r, root, x.a) then (if e == EMPTY then None else Some(e)) else Walk(pt, r, y)
  {
  }

  // ----- Ensure, with the allocator behind it -----

  /** Housing survives as long as no held block and no slab goes away. */
  lemma HousedKept(s: Memory, o: Owners, m': Mem, o': Owners, i: nat, a: nat)
    requires Housed(s, o) && HandedOut(s.m, o, i, m', o', a)
    ensures forall t | t in s.pt :: TableAt(m', o', t)
  {
  }

  /** A block fresh from kmalloc is not a table yet, and not at address zero. */
  lemma FreshTable(s: Memory, o: Owners, m': Mem, o': Owners, a: nat)
    requires Housed(s, o) && o.base >= 1 && HandedOut(s.m, o, 7, m', o', a)
    ensures a >= VA(o.base) > PAGE_OFFSET && a - PAGE_OFFSET !in s.pt && TableAt(m', o', a - PAGE_OFFSET)
  {
  }

  /** What making sure of an upper entry does. */
  ghost predicate Ensured(s: Memory, l: Levels, o: Owners, t: nat, pos: nat, s': Memory, l': Levels, o': Owners)
  {
    && PagingInv(s', l', o') && Lookup(s'.pt, t, pos) != EMPTY
    && l'.l4 == l.l4 && l.l3 <= l'.l3 && l.l2 <= l'.l2
    && o'.user == o.user && o'.base == o.base && o.held <= o'.held && SlabsKept(s.m, s'.m)
    && s'.m.fr.NoPage() == s.m.fr.NoPage()
    && SameWalks(s.pt, s'.pt, l) && SameShares(s.pt, s'.pt, l)
  }

  lemma PagingParts(s: Memory, l: Levels, o: Owners)
    requires PagingInv(s, l, o)
    ensures |s.m.caches| == CLASSES && |s.m.fr.refs| == s.m.fr.NoPage()
    ensures Sized(s.pt, l) && Linked(s.pt, l) && Unshared(s.pt, l) && Housed(s, o) && o.base >= 1 && Inv(s.m, o)
  {
  }

  lemma ClassOfTable()
    ensures ClassFor(PAGE_4K, 0) == 7
  {
  }

  lemma EnsureFlags(s: Memory, l: Levels, o: Owners, t: nat, pos: nat, flags: set<Flag>)
    requires |s.m.caches| == CLASSES && |s.m.fr.refs| == s.m.fr.NoPage()
    requires (t in l.l4 || t in l.l3) && pos < 512 && t in s.pt && pos < |s.pt[t]| && s.pt[t][pos] != EMPTY
    requires PagingInv(s, l, o)
    ensures Ensure(s, t, pos, flags).PtOk? && Ensured(s, l, o, t, pos, Ensure(s, t, pos, flags).mem, l, o)
    ensures FlagsAdded(s.pt, Ensure(s, t, pos, flags).mem.pt, t, pos, flags)
  {
    hide Inv, Linked, Unshared, SameWalks, SameShares;
    var e := s.pt[t][pos].(flags := s.pt[t][pos].flags + flags);
    var s' := s.(pt := SetEntry(s.pt, t, pos, e));
    PagingParts(s, l, o);
    SetEntryReplaces(s.pt, t, pos, e);
    assert e != EMPTY;
    FlagsKeepTree(s.pt, s'.pt, l, t, pos, e);
    FlagsKeepWalks(s.pt, s'.pt, l, t, pos, e);
    assert Housed(s', o) by {
      forall u | u in s'.pt ensures TableAt(s'.m, o, u) { assert u in s.pt; }
    }
  }

  lemma EnsureNew(s: Memory, l: Levels, o: Owners, t: nat, pos: nat, flags: set<Flag>) returns (l': Levels, o': Owners)
    requires |s.m.caches| == CLASSES && |s.m.fr.refs| == s.m.fr.NoPage()
    requires (t in l.l4 || t in l.l3) && pos < 512 && t in s.pt && pos < |s.pt[t]| && s.pt[t][pos] == EMPTY
    requires PagingInv(s, l, o)
    ensures Ensure(s, t, pos, flags).PtOk? || Ensure(s, t, pos, flags).PtFault?
    ensures Ensure(s, t, pos, flags).PtFault? <==> FreeFrames(s.m) < FramesNeeded(s.m, 7)
    ensures Ensure(s, t, pos, flags).PtOk? ==>
      && Ensured(s, l, o, t, pos, Ensure(s, t, pos, flags).mem, l', o')
      && FlagsAdded(s.pt, Ensure(s, t, pos, flags).mem.pt, t, pos, flags)
  {
    hide Inv, Linked, Unshared, SameWalks, SameShares, Kmalloc, FramesNeeded, HandedOut, Ensured, FlagsAdded, OwnFrames, SetEntry, Housed;
    PagingParts(s, l, o);
    ClassOfTable();
    l' := l;
    o' := KmallocCorrect(s.m, o, PAGE_4K);
    if Kmalloc(s.m, PAGE_4K).Got? {
      l' := HangTable(s, l, o, t, pos, flags, Kmalloc(s.m, PAGE_4K).mem, o', Kmalloc(s.m, PAGE_4K).addr);
    }
  }

  lemma HangTable(s: Memory, l: Levels, o: Owners, t: nat, pos: nat, flags: set<Flag>, m': Mem, o': Owners, a: nat)
    returns (l': Levels)
    requires (t in l.l4 || t in l.l3) && pos < 512 && t in s.pt && pos < |s.pt[t]| && s.pt[t][pos] == EMPTY
    requires PagingInv(s, l, o) && HandedOut(s.m, o, 7, m', o', a)
    ensures a >= PAGE_OFFSET
    ensures var n := a - PAGE_OFFSET;
      && Ensured(s, l, o, t, pos, Memory(m', SetEntry(s.pt[n := NoEntries()], t, pos, Entry(n, flags))), l', o')
      && FlagsAdded(s.pt, SetEntry(s.pt[n := NoEntries()], t, pos, Entry(n, flags)), t, pos, flags)
  {
    hide Inv, Linked, Unshared, SameWalks, SameShares, BlockOf;
    PagingParts(s, l, o);
    FreshTable(s, o, m', o', a);
    HousedKept(s, o, m', o', 7, a);
    var n := a - PAGE_OFFSET;
    var e := Entry(n, flags);
    var pt' := SetEntry(s.pt[n := NoEntries()], t, pos, e);
    NewTableReplaces(s.pt, n, t, pos, e);
    assert forall p: nat :: Lookup(s.pt, n, p) == EMPTY;
    NewKeepsWalks(s.pt, pt', l, t, pos, e);
    if t in l.l4 {
      NewKeepsTree4(s.pt, pt', l, t, pos, e);
      l' := l.(l3 := l.l3 + {n});
    } else {
      NewKeepsTree3(s.pt, pt', l, t, pos, e);
      l' := l.(l2 := l.l2 + {n});
    }
    assert Housed(Memory(m', pt'), o') by {
      forall u | u in pt' ensures TableAt(m', o', u) { assert u == n || u in s.pt; }
    }
    assert Sized(pt', l');
  }
}
