/** pagetable_init and pagetable_clear: what they do to the translations of every address space. */
module PagingMaps {
  import opened Words
  import opened Frames
  import opened Slabs
  import opened SlabOwnership
  import opened SlabCalls
  import opened Paging
  import opened PagingSteps

  /** The tables are sound again, with at most more tables and more held blocks than before. */
  ghost predicate Extends(s: Memory, l: Levels, o: Owners, s': Memory, l': Levels, o': Owners)
  {
    && PagingInv(s', l', o') && l'.l4 == l.l4 && o'.user == o.user && o'.base == o.base
    && o.held <= o'.held && SlabsKept(s.m, s'.m) && SameShares(s.pt, s'.pt, l)
    && s'.m.fr.NoPage() == s.m.fr.NoPage() && UpperKept(s.pt, s'.pt, l, l')
  }

  lemma SharesChain(pt0: map<nat, Table>, pt1: map<nat, Table>, pt2: map<nat, Table>, l: Levels)
    requires SameShares(pt0, pt1, l) && SameShares(pt1, pt2, l)
    ensures SameShares(pt0, pt2, l)
  {
  }

  lemma EnsureCorrect(s: Memory, l: Levels, o: Owners, t: nat, pos: nat, flags: set<Flag>)
    returns (l': Levels, o': Owners)
    requires |s.m.caches| == CLASSES && |s.m.fr.refs| == s.m.fr.NoPage()
    requires (t in l.l4 || t in l.l3) && pos < 512 && PagingInv(s, l, o)
    ensures Ensure(s, t, pos, flags).PtOk? || Ensure(s, t, pos, flags).PtFault?
    ensures Ensure(s, t, pos, flags).PtOk? ==>
      && Ensured(s, l, o, t, pos, Ensure(s, t, pos, flags).mem, l', o')
      && FlagsAdded(s.pt, Ensure(s, t, pos, flags).mem.pt, t, pos, flags)
  {
    hide Inv, Linked, Unshared, Housed, Ensured, FlagsAdded;
    PagingParts(s, l, o);
    assert t in s.pt && |s.pt[t]| == 512;
    l', o' := l, o;
    if s.pt[t][pos] != EMPTY {
      EnsureFlags(s, l, o, t, pos, flags);
    } else {
      l', o' := EnsureNew(s, l, o, t, pos, flags);
    }
  }

  /** Both upper levels are there: the walk for x reaches a leaf table, and nobody's translation
      has changed yet. */
  lemma BothEnsured(s: Memory, l: Levels, o: Owners, root: nat, x: Slot,
                    s1: Memory, l1: Levels, o1: Owners, s2: Memory, l2: Levels, o2: Owners)
    requires root in l.l4 && Ensured(s, l, o, root, x.a, s1, l1, o1)
    requires Ensured(s1, l1, o1, Lookup(s1.pt, root, x.a).base, x.b, s2, l2, o2)
    requires FlagsKept(s.pt, s1.pt, {}) && FlagsKept(s1.pt, s2.pt, {})
    ensures Extends(s, l, o, s2, l2, o2) && SameWalks(s.pt, s2.pt, l)
    ensures Reaches2(s2.pt, root, x) && Table2(s2.pt, root, x) in l2.l2 && Table3(s2.pt, root, x) == Table3(s1.pt, root, x)
  {
  }

  /** What one page does to the flags of upper entries. */
  ghost predicate UpperPage(pt: map<nat, Table>, pt': map<nat, Table>, leaf: set<nat>, root: nat, x: Slot, attr: Attr)
  {
    forall u: nat, p: nat {:trigger Lookup(pt', u, p)} {:trigger Lookup(pt, u, p)} ::
      u !in leaf ==>
        Lookup(pt', u, p).flags == Lookup(pt, u, p).flags
          + (if u == root && p == x.a then attr.pml4e else {})
          + (if u == Table3(pt', root, x) && p == x.b then attr.pdpte else {})
  }

  lemma UpperOfPage(pt: map<nat, Table>, pt1: map<nat, Table>, pt2: map<nat, Table>, pt3: map<nat, Table>,
                    leaf: set<nat>, root: nat, x: Slot, attr: Attr, e: Entry)
    requires FlagsAdded(pt, pt1, root, x.a, attr.pml4e)
    requires FlagsAdded(pt1, pt2, Table3(pt1, root, x), x.b, attr.pdpte)
    requires Table2(pt2, root, x) in leaf && Replaced(pt2, pt3, Table2(pt2, root, x), x.c, e)
    requires Table3(pt1, root, x) == Table3(pt3, root, x)
    ensures UpperPage(pt, pt3, leaf, root, x, attr)
  {
    hide Table2;
    var t3 := Table3(pt1, root, x);
    hide Table3;
    forall u: nat, p: nat | u !in leaf
      ensures Lookup(pt3, u, p).flags == Lookup(pt, u, p).flags
        + (if u == root && p == x.a then attr.pml4e else {}) + (if u == t3 && p == x.b then attr.pdpte else {})
    {
      assert Lookup(pt1, u, p).flags == Lookup(pt, u, p).flags + if u == root && p == x.a then attr.pml4e else {};
    }
  }

  /** Writing a leaf entry keeps everything but the translations of that slot. */
  lemma LeafWritten(s: Memory, l: Levels, o: Owners, root: nat, x: Slot, e: Entry)
    requires root in l.l4 && Reaches2(s.pt, root, x) && Table2(s.pt, root, x) in l.l2 && x.c < 512
    requires PagingInv(s, l, o)
    ensures var s' := s.(pt := SetEntry(s.pt, Table2(s.pt, root, x), x.c, e));
      Replaced(s.pt, s'.pt, Table2(s.pt, root, x), x.c, e) && Extends(s, l, o, s', l, o) && WritesOnly(s.pt, s'.pt, l, root, x, if e == EMPTY then None else Some(e))
  {
    hide Inv, Linked, Unshared, Housed, Shares, Walk, Reaches2, Table2;
    PagingParts(s, l, o);
    var t := Table2(s.pt, root, x);
    assert t in s.pt && |s.pt[t]| == 512;
    var s' := s.(pt := SetEntry(s.pt, t, x.c, e));
    SetEntryReplaces(s.pt, t, x.c, e);
    LeafKeepsTree(s.pt, s'.pt, l, t, x.c, e);
    forall r, y: Slot | r in l.l4
      ensures Walk(s'.pt, r, y) == if y == x && Shares(s.pt, r, root, x.a) then (if e == EMPTY then None else Some(e))
                                   else Walk(s.pt, r, y)
    {
      LeafWalks(s.pt, s'.pt, l, root, x, e, r, y);
    }
    HousedSame(s, s', o);
    assert SlabsKept(s.m, s'.m);
    LeafKeepsUpper(s.pt, s'.pt, l, t, x.c, e);
  }

  lemma LeafKeepsUpper(pt: map<nat, Table>, pt': map<nat, Table>, l: Levels, t: nat, pos: nat, e: Entry)
    requires t in l.l2 && Replaced(pt, pt', t, pos, e)
    ensures UpperKept(pt, pt', l, l)
  {
  }

  lemma AddedKeeps(pt: map<nat, Table>, pt': map<nat, Table>, t: nat, pos: nat, flags: set<Flag>)
    requires FlagsAdded(pt, pt', t, pos, flags)
    ensures forall leaf :: FlagsKept(pt, pt', leaf)
  {
  }

  lemma HousedSame(s: Memory, s': Memory, o: Owners)
    requires Housed(s, o) && s'.m == s.m && s'.pt.Keys == s.pt.Keys
    ensures Housed(s', o)
  {
  }

  /** The only translations that changed are those of slot x in root and the spaces sharing it. */
  ghost predicate WritesOnly(pt: map<nat, Table>, pt': map<nat, Table>, l: Levels, root: nat, x: Slot, to: Option<Entry>)
  {
    forall r, y: Slot | r in l.l4 ::
      Walk(pt', r, y) == if y == x && Shares(pt, r, root, x.a) then to else Walk(pt, r, y)
  }

  /** One round of pagetable_init. */
  lemma MapPageCorrect(s: Memory, l: Levels, o: Owners, root: nat, v: nat, phys: nat, attr: Attr)
    returns (l': Levels, o': Owners)
    requires |s.m.caches| == CLASSES && |s.m.fr.refs| == s.m.fr.NoPage()
    requires root in l.l4 && attr.pde != {} && PagingInv(s, l, o)
    ensures MapPage(s, root, v, phys, attr).PtOk? || MapPage(s, root, v, phys, attr).PtFault?
    ensures var r := MapPage(s, root, v, phys, attr);
      r.PtOk? ==> Extends(s, l, o, r.mem, l', o')
                  && WritesOnly(s.pt, r.mem.pt, l, root, SlotOf(v), Some(Entry(phys, attr.pde)))
                  && UpperPage(s.pt, r.mem.pt, l'.l2, root, SlotOf(v), attr)
                  && |r.mem.m.caches| == CLASSES && |r.mem.m.fr.refs| == r.mem.m.fr.NoPage()
  {
    hide Inv, PagingInv, Ensure, Ensured, SameWalks, SameShares, WritesOnly, Extends, Reaches2, FlagsAdded, UpperPage, FlagsKept;
    var x := SlotOf(v);
    var l1, o1 := EnsureCorrect(s, l, o, root, x.a, attr.pml4e);
    l', o' := l1, o1;
    if Ensure(s, root, x.a, attr.pml4e).PtOk? {
      var s1 := Ensure(s, root, x.a, attr.pml4e).mem;
      EnsuredParts(s, l, o, root, x.a, s1, l1, o1);
      var t3 := Lookup(s1.pt, root, x.a).base;
      var l2, o2 := EnsureCorrect(s1, l1, o1, t3, x.b, attr.pdpte);
      if Ensure(s1, t3, x.b, attr.pdpte).PtOk? {
        var s2 := Ensure(s1, t3, x.b, attr.pdpte).mem;
        AddedKeeps(s.pt, s1.pt, root, x.a, attr.pml4e);
        AddedKeeps(s1.pt, s2.pt, t3, x.b, attr.pdpte);
        BothEnsured(s, l, o, root, x, s1, l1, o1, s2, l2, o2);
        l', o' := l2, o2;
        FinishPage(s, l, o, root, x, s2, l2, o2, Entry(phys, attr.pde));
        UpperOfPage(s.pt, s1.pt, s2.pt, MapPage(s, root, v, phys, attr).mem.pt, l2.l2, root, x, attr, Entry(phys, attr.pde));
      }
    }
  }

  lemma EnsuredParts(s: Memory, l: Levels, o: Owners, root: nat, a: nat, s1: Memory, l1: Levels, o1: Owners)
    requires root in l.l4 && Ensured(s, l, o, root, a, s1, l1, o1)
    ensures PagingInv(s1, l1, o1) && |s1.m.caches| == CLASSES && |s1.m.fr.refs| == s1.m.fr.NoPage()
    ensures Lookup(s1.pt, root, a).base in l1.l3
  {
  }

  lemma ReachedFirst(pt: map<nat, Table>, root: nat, x: Slot)
    requires Reaches2(pt, root, x)
    ensures Lookup(pt, root, x.a) != EMPTY
  {
  }

  lemma FinishPage(s: Memory, l: Levels, o: Owners, root: nat, x: Slot, s2: Memory, l2: Levels, o2: Owners, e: Entry)
    requires root in l.l4 && x.c < 512 && e != EMPTY
    requires Extends(s, l, o, s2, l2, o2) && SameWalks(s.pt, s2.pt, l)
    requires Reaches2(s2.pt, root, x) && Table2(s2.pt, root, x) in l2.l2
    ensures var s' := s2.(pt := SetEntry(s2.pt, Table2(s2.pt, root, x), x.c, e));
      && Extends(s, l, o, s', l2, o2) && WritesOnly(s.pt, s'.pt, l, root, x, Some(e))
      && |s'.m.caches| == CLASSES && |s'.m.fr.refs| == s'.m.fr.NoPage()
      && Replaced(s2.pt, s'.pt, Table2(s2.pt, root, x), x.c, e) && Table3(s'.pt, root, x) == Table3(s2.pt, root, x)
  {
    hide Inv, PagingInv, Walk, Shares, Lookup, Table2, Reaches2, UpperKept;
    LeafWritten(s2, l2, o2, root, x, e);
    var s' := s2.(pt := SetEntry(s2.pt, Table2(s2.pt, root, x), x.c, e));
    UpperKeptChain(s.pt, s2.pt, s'.pt, l, l2, l2);
    ReachedFirst(s2.pt, root, x);
    PagingParts(s', l2, o2);
    SharesChain(s.pt, s2.pt, s'.pt, l);
    forall r, y: Slot | r in l.l4
      ensures Walk(s'.pt, r, y) == if y == x && Shares(s.pt, r, root, x.a) then Some(e) else Walk(s.pt, r, y)
    {
      assert Shares(s2.pt, r, root, x.a) <==> Shares(s.pt, r, root, x.a);
      assert Walk(s2.pt, r, y) == Walk(s.pt, r, y);
    }
  }

  // ----- a whole range -----

  /** Byte off of page k of the range that starts at base. */
  function PageAddr(base: nat, k: nat, off: nat): (r: nat) { base + k * PAGE_2M + off }

  function PageSlot(virt: nat, k: nat): (r: Slot) { SlotOf(virt + k * PAGE_2M) }

  /** Pages i to n of the range translate to phys in root and the spaces sharing its tables there;
      every other translation of every space is what it was. */
  ghost predicate RangeMapped(pt: map<nat, Table>, pt': map<nat, Table>, l: Levels, root: nat,
                              virt: nat, phys: nat, i: nat, n: nat, flags: set<Flag>)
  {
    && (forall r, k: nat | r in l.l4 && i <= k < n && Shares(pt, r, root, PageSlot(virt, k).a) ::
          Walk(pt', r, PageSlot(virt, k)) == Some(Entry(phys + k * PAGE_2M, flags)))
    && (forall r, y: Slot | r in l.l4 && ((forall k: nat | i <= k < n :: PageSlot(virt, k) != y) || !Shares(pt, r, root, y.a)) ::
          Walk(pt', r, y) == Walk(pt, r, y))
  }

  /** Some page of the range goes through entry p of the level-4 table. */
  ghost predicate OnWay4(virt: nat, i: nat, n: nat, p: nat)
  {
    exists k: nat :: i <= k < n && PageSlot(virt, k).a == p
  }

  /** Some page of the range goes through entry p of the level-3 table u. */
  ghost predicate OnWay3(pt: map<nat, Table>, root: nat, virt: nat, i: nat, n: nat, u: nat, p: nat)
  {
    exists k: nat :: i <= k < n && Table3(pt, root, PageSlot(virt, k)) == u && PageSlot(virt, k).b == p
  }

  /** The upper entries on the way to the pages gained exactly the attributes of their level, and no
      other upper entry gained or lost a flag. */
  ghost predicate UpperRange(pt: map<nat, Table>, pt': map<nat, Table>, leaf: set<nat>, root: nat,
                             virt: nat, i: nat, n: nat, attr: Attr)
  {
    forall u: nat, p: nat {:trigger Lookup(pt', u, p)} {:trigger Lookup(pt, u, p)} ::
      u !in leaf ==>
        Lookup(pt', u, p).flags == Lookup(pt, u, p).flags
          + (if u == root && OnWay4(virt, i, n, p) then attr.pml4e else {})
          + (if OnWay3(pt', root, virt, i, n, u, p) then attr.pdpte else {})
  }

  lemma UpperStep(pt: map<nat, Table>, pt1: map<nat, Table>, pt2: map<nat, Table>, leaf1: set<nat>, leaf: set<nat>,
                  root: nat, virt: nat, i: nat, n: nat, attr: Attr)
    requires i < n && leaf1 <= leaf && UpperPage(pt, pt1, leaf1, root, PageSlot(virt, i), attr)
    requires UpperRange(pt1, pt2, leaf, root, virt, i + 1, n, attr)
    requires Table3(pt2, root, PageSlot(virt, i)) == Table3(pt1, root, PageSlot(virt, i))
    ensures UpperRange(pt, pt2, leaf, root, virt, i, n, attr)
  {
    hide PageSlot, Table3;
    forall u: nat, p: nat | u !in leaf
      ensures Lookup(pt2, u, p).flags == Lookup(pt, u, p).flags
        + (if u == root && OnWay4(virt, i, n, p) then attr.pml4e else {})
        + (if OnWay3(pt2, root, virt, i, n, u, p) then attr.pdpte else {})
    {
      Way4Step(virt, i, n, p);
      Way3Step(pt2, root, virt, i, n, u, p);
      hide OnWay4, OnWay3, Lookup;
      assert Lookup(pt1, u, p).flags == Lookup(pt, u, p).flags
        + (if u == root && p == PageSlot(virt, i).a then attr.pml4e else {})
        + (if u == Table3(pt1, root, PageSlot(virt, i)) && p == PageSlot(virt, i).b then attr.pdpte else {});
    }
  }

  lemma Way4Step(virt: nat, i: nat, n: nat, p: nat)
    requires i < n
    ensures OnWay4(virt, i, n, p) <==> PageSlot(virt, i).a == p || OnWay4(virt, i + 1, n, p)
  {
    hide PageSlot;
  }

  lemma Way3Step(pt: map<nat, Table>, root: nat, virt: nat, i: nat, n: nat, u: nat, p: nat)
    requires i < n
    ensures OnWay3(pt, root, virt, i, n, u, p) <==>
      (Table3(pt, root, PageSlot(virt, i)) == u && PageSlot(virt, i).b == p) || OnWay3(pt, root, virt, i + 1, n, u, p)
  {
    hide PageSlot, Table3;
  }

  lemma ExtendsChain(s: Memory, l: Levels, o: Owners, s1: Memory, l1: Levels, o1: Owners, s2: Memory, l2: Levels, o2: Owners)
    requires Extends(s, l, o, s1, l1, o1) && Extends(s1, l1, o1, s2, l2, o2)
    ensures Extends(s, l, o, s2, l2, o2)
  {
    hide PagingInv;
    UpperKeptChain(s.pt, s1.pt, s2.pt, l, l1, l2);
  }

  lemma ExtendsSelf(s: Memory, l: Levels, o: Owners)
    requires PagingInv(s, l, o)
    ensures Extends(s, l, o, s, l, o)
  {
  }

  lemma RangeStep(pt: map<nat, Table>, pt1: map<nat, Table>, pt2: map<nat, Table>, l: Levels, root: nat,
                  virt: nat, phys: nat, i: nat, n: nat, flags: set<Flag>)
    requires root in l.l4 && i < n && n - i <= 0x800_0000 && virt % PAGE_2M == 0
    requires WritesOnly(pt, pt1, l, root, PageSlot(virt, i), Some(Entry(phys + i * PAGE_2M, flags)))
    requires SameShares(pt, pt1, l)
    requires RangeMapped(pt1, pt2, l, root, virt, phys, i + 1, n, flags)
    ensures RangeMapped(pt, pt2, l, root, virt, phys, i, n, flags)
  {
    hide Walk, Shares, Lookup;
    forall k: nat | i < k < n ensures PageSlot(virt, k) != PageSlot(virt, i) {
      RangeSlotsDiffer(virt, i, k);
    }
    hide SlotOf, PageSlot;
    forall r, k: nat | r in l.l4 && i <= k < n && Shares(pt, r, root, PageSlot(virt, k).a)
      ensures Walk(pt2, r, PageSlot(virt, k)) == Some(Entry(phys + k * PAGE_2M, flags))
    {
      assert Shares(pt1, r, root, PageSlot(virt, k).a);
      if k == i {
        assert Walk(pt2, r, PageSlot(virt, i)) == Walk(pt1, r, PageSlot(virt, i));
      }
    }
    forall r, y: Slot | r in l.l4 && ((forall k: nat | i <= k < n :: PageSlot(virt, k) != y) || !Shares(pt, r, root, y.a))
      ensures Walk(pt2, r, y) == Walk(pt, r, y)
    {
      assert Shares(pt1, r, root, y.a) <==> Shares(pt, r, root, y.a);
      assert Walk(pt1, r, y) == Walk(pt, r, y);
    }
  }

  /** The loop of pagetable_init over at most 2^27 pages. */
  lemma {:induction false} MapPagesCorrect(s: Memory, l: Levels, o: Owners, root: nat, virt: nat, phys: nat,
                                           i: nat, n: nat, attr: Attr)
    returns (l': Levels, o': Owners)
    requires |s.m.caches| == CLASSES && |s.m.fr.refs| == s.m.fr.NoPage()
    requires root in l.l4 && attr.pde != {} && virt % PAGE_2M == 0 && n - i <= 0x800_0000
    requires PagingInv(s, l, o)
    ensures MapPages(s, root, virt, phys, i, n, attr).PtOk? || MapPages(s, root, virt, phys, i, n, attr).PtFault?
    ensures var r := MapPages(s, root, virt, phys, i, n, attr);
      r.PtOk? ==> Extends(s, l, o, r.mem, l', o')
                  && RangeMapped(s.pt, r.mem.pt, l, root, virt, phys, i, n, attr.pde)
                  && UpperRange(s.pt, r.mem.pt, l'.l2, root, virt, i, n, attr)
    decreases n - i
  {
    hide Inv, PagingInv, MapPage, WritesOnly, RangeMapped, SlotOf, UpperPage, UpperRange, Extends;
    l', o' := l, o;
    if i >= n {
      ExtendsSelf(s, l, o);
      EmptyRange(s.pt, l, root, virt, phys, i, n, attr.pde);
      EmptyUpper(s.pt, l.l2, root, virt, i, n, attr);
    } else {
      var l1, o1 := MapPageCorrect(s, l, o, root, virt + i * PAGE_2M, phys + i * PAGE_2M, attr);
      var r := MapPage(s, root, virt + i * PAGE_2M, phys + i * PAGE_2M, attr);
      if r.PtOk? {
        ExtendedParts(s, l, o, r.mem, l1, o1);
        l', o' := MapPagesCorrect(r.mem, l1, o1, root, virt, phys, i + 1, n, attr);
        var r2 := MapPages(r.mem, root, virt, phys, i + 1, n, attr);
        if r2.PtOk? {
          ExtendsChain(s, l, o, r.mem, l1, o1, r2.mem, l', o');
          SameLevel4(r.mem.pt, r2.mem.pt, l1, l, root, virt, phys, i + 1, n, attr.pde);
          RangeStep(s.pt, r.mem.pt, r2.mem.pt, l, root, virt, phys, i, n, attr.pde);
          FirstStays(s.pt, r.mem, l1, o1, r2.mem, l', o', l, root, PageSlot(virt, i), Entry(phys + i * PAGE_2M, attr.pde));
          UpperStep(s.pt, r.mem.pt, r2.mem.pt, l1.l2, l'.l2, root, virt, i, n, attr);
        }
      }
    }
  }

  lemma ExtendedParts(s: Memory, l: Levels, o: Owners, s1: Memory, l1: Levels, o1: Owners)
    requires Extends(s, l, o, s1, l1, o1)
    ensures PagingInv(s1, l1, o1) && l1.l4 == l.l4 && SameShares(s.pt, s1.pt, l)
  {
  }

  /** The level-3 table of a page that was mapped stays. */
  lemma FirstStays(pt: map<nat, Table>, s1: Memory, l1: Levels, o1: Owners, s2: Memory, l2: Levels, o2: Owners,
                   l: Levels, root: nat, x: Slot, e: Entry)
    requires Extends(s1, l1, o1, s2, l2, o2) && WritesOnly(pt, s1.pt, l, root, x, Some(e)) && root in l.l4 && l1.l4 == l.l4
    ensures Table3(s2.pt, root, x) == Table3(s1.pt, root, x) && l1.l2 <= l2.l2
  {
    hide PagingInv;
    assert Shares(pt, root, root, x.a);
    assert Walk(s1.pt, root, x) == Some(e);
  }

  lemma EmptyUpper(pt: map<nat, Table>, leaf: set<nat>, root: nat, virt: nat, i: nat, n: nat, attr: Attr)
    requires i >= n
    ensures UpperRange(pt, pt, leaf, root, virt, i, n, attr)
  {
    assert forall p :: !OnWay4(virt, i, n, p);
    assert forall u, p :: !OnWay3(pt, root, virt, i, n, u, p);
  }

  lemma EmptyRange(pt: map<nat, Table>, l: Levels, root: nat, virt: nat, phys: nat, i: nat, n: nat, flags: set<Flag>)
    requires i >= n
    ensures RangeMapped(pt, pt, l, root, virt, phys, i, n, flags)
  {
  }

  lemma SameLevel4(pt: map<nat, Table>, pt': map<nat, Table>, l1: Levels, l: Levels, root: nat,
                   virt: nat, phys: nat, i: nat, n: nat, flags: set<Flag>)
    requires l1.l4 == l.l4 && RangeMapped(pt, pt', l1, root, virt, phys, i, n, flags)
    ensures RangeMapped(pt, pt', l, root, virt, phys, i, n, flags)
  {
  }

  // ----- pagetable_init -----

  /** Zero: an address is not 2 MB aligned, and the call returns 0 without doing anything. */
  datatype InitRes = Zero | Crashed | Mapped(mem: Memory)

  function PagetableInit(s: Memory, root: nat, phys: nat, virt: nat, n: nat, attr: Attr): (r: InitRes)
    requires |s.m.caches| == CLASSES && |s.m.fr.refs| == s.m.fr.NoPage()
  {
    if virt % PAGE_2M != 0 || phys % PAGE_2M != 0 then Zero
    else match MapPages(s, root, virt, phys, 0, n, attr)
      case PtOk(m) => Mapped(m)
      case _ => Crashed
  }

  lemma WalkTranslates(pt: map<nat, Table>, root: nat, v: nat, e: Entry)
    requires Walk(pt, root, SlotOf(v)) == Some(e)
    ensures VirtToPhy(pt, root, v) == e.base - e.base % PAGE_2M + v % PAGE_2M
  {
    hide Lookup;
    PageSlotSame(v);
    hide SlotOf;
  }

  lemma PageSlotSame(v: nat)
    ensures SlotOf(v - v % PAGE_2M) == SlotOf(v)
  {
    SlotsInjective(v - v % PAGE_2M, v);
    assert (v - v % PAGE_2M) / PAGE_2M == v / PAGE_2M;
  }

  lemma AddressInPage(virt: nat, k: nat, off: nat)
    requires virt % PAGE_2M == 0 && off < PAGE_2M
    ensures SlotOf(virt + k * PAGE_2M + off) == PageSlot(virt, k)
    ensures (virt + k * PAGE_2M + off) % PAGE_2M == off
    ensures PageNo(virt + k * PAGE_2M + off) == PageNo(virt + k * PAGE_2M)
  {
    var q := virt / PAGE_2M;
    assert (virt + k * PAGE_2M + off) / PAGE_2M == q + k == (virt + k * PAGE_2M) / PAGE_2M;
    SlotsInjective(virt + k * PAGE_2M + off, virt + k * PAGE_2M);
  }

  /** The flags an attribute has on every level. */
  function Common(attr: Attr): (r: set<Flag>) { attr.pml4e * attr.pdpte * attr.pde }

  /** The page of slot x is mapped, and the entry of every level on the way carries these flags: what
      the processor asks for before it lets an access through. */
  ghost predicate Allows(pt: map<nat, Table>, root: nat, x: Slot, need: set<Flag>)
  {
    && Walk(pt, root, x).Some? && need <= Walk(pt, root, x).value.flags
    && need <= Lookup(pt, root, x.a).flags && need <= Lookup(pt, Table3(pt, root, x), x.b).flags
  }

  /** A page that is let through still is after any change that leaves its leaf alone. */
  lemma AllowsKept(s: Memory, l: Levels, o: Owners, s': Memory, l': Levels, o': Owners, root: nat, x: Slot, need: set<Flag>)
    requires root in l.l4 && l'.l4 == l.l4 && UpperKept(s.pt, s'.pt, l, l') && SameShares(s.pt, s'.pt, l)
    requires PagingInv(s, l, o) && PagingInv(s', l', o')
    requires Allows(s.pt, root, x, need) && Walk(s'.pt, root, x) == Walk(s.pt, root, x)
    ensures Allows(s'.pt, root, x, need)
  {
    hide Inv, PagingInv, Shares;
    UpperTables(s, l, o, root, x);
    UpperTables(s', l', o', root, x);
  }

  lemma RangeAllows(s: Memory, l: Levels, o: Owners, s': Memory, l': Levels, o': Owners, root: nat,
                    virt: nat, phys: nat, n: nat, attr: Attr, k: nat)
    requires root in l.l4 && k < n && Extends(s, l, o, s', l', o')
    requires RangeMapped(s.pt, s'.pt, l, root, virt, phys, 0, n, attr.pde)
    requires UpperRange(s.pt, s'.pt, l'.l2, root, virt, 0, n, attr)
    ensures Allows(s'.pt, root, PageSlot(virt, k), Common(attr))
  {
    hide Inv, PageSlot, Unshared, Housed;
    var x := PageSlot(virt, k);
    assert Shares(s.pt, root, root, x.a);
    assert Walk(s'.pt, root, x) == Some(Entry(phys + k * PAGE_2M, attr.pde));
    UpperTables(s', l', o', root, x);
    assert OnWay4(virt, 0, n, x.a) && OnWay3(s'.pt, root, virt, 0, n, Table3(s'.pt, root, x), x.b);
  }

  /** Upper tables are no leaf tables. */
  lemma UpperTables(s: Memory, l: Levels, o: Owners, root: nat, x: Slot)
    requires root in l.l4 && Walk(s.pt, root, x).Some? && PagingInv(s, l, o)
    ensures root !in l.l2 && Table3(s.pt, root, x) in l.l3 && Table3(s.pt, root, x) !in l.l2
  {
  }

  /** Map then translate is right, and nothing else moves: after mapping n <= 2^27 aligned pages,
      every address of the range gives its offset from the physical base; every other address of
      this space, and every address outside the shared tables of every other space, translates as
      it did, including to "not mapped". */
  lemma MapThenTranslate(s: Memory, l: Levels, o: Owners, root: nat, phys: nat, virt: nat, n: nat, attr: Attr)
    returns (l': Levels, o': Owners)
    requires |s.m.caches| == CLASSES && |s.m.fr.refs| == s.m.fr.NoPage()
    requires root in l.l4 && attr.pde != {} && n <= 0x800_0000
    requires PagingInv(s, l, o)
    ensures var r := PagetableInit(s, root, phys, virt, n, attr);
      && (r.Zero? <==> virt % PAGE_2M != 0 || phys % PAGE_2M != 0)
      && (r.Mapped? ==>
            && Extends(s, l, o, r.mem, l', o')
            && RangeMapped(s.pt, r.mem.pt, l, root, virt, phys, 0, n, attr.pde)
            && UpperRange(s.pt, r.mem.pt, l'.l2, root, virt, 0, n, attr)
            && (forall k: nat | k < n :: Allows(r.mem.pt, root, PageSlot(virt, k), Common(attr)))
            && (forall k: nat, off: nat | k < n && off < PAGE_2M ::
                  VirtToPhy(r.mem.pt, root, PageAddr(virt, k, off)) == PageAddr(phys, k, off))
            && (forall w: nat | (forall k: nat | k < n :: PageNo(virt + k * PAGE_2M) != PageNo(w)) ::
                  Walk(r.mem.pt, root, SlotOf(w)) == Walk(s.pt, root, SlotOf(w)))
            && (forall u, w: nat | u in l.l4 && !Shares(s.pt, u, root, SlotOf(w).a) ::
                  Walk(r.mem.pt, u, SlotOf(w)) == Walk(s.pt, u, SlotOf(w))))
  {
    hide Inv, PagingInv, MapPages, Walk, Lookup, SameShares, UpperRange, Extends, Allows;
    l', o' := l, o;
    var r := PagetableInit(s, root, phys, virt, n, attr);
    if r.Mapped? {
      l', o' := MapPagesCorrect(s, l, o, root, virt, phys, 0, n, attr);
      var pt' := r.mem.pt;
      forall k: nat | k < n ensures Allows(pt', root, PageSlot(virt, k), Common(attr)) {
        RangeAllows(s, l, o, r.mem, l', o', root, virt, phys, n, attr, k);
      }
      forall k: nat, off: nat | k < n && off < PAGE_2M
        ensures VirtToPhy(pt', root, PageAddr(virt, k, off)) == PageAddr(phys, k, off)
      {
        AddressInPage(virt, k, off);
        assert Walk(pt', root, PageSlot(virt, k)) == Some(Entry(phys + k * PAGE_2M, attr.pde));
        WalkTranslates(pt', root, virt + k * PAGE_2M + off, Entry(phys + k * PAGE_2M, attr.pde));
        AlignedPage(phys, k);
      }
      forall w: nat | forall k: nat | k < n :: PageNo(virt + k * PAGE_2M) != PageNo(w)
        ensures Walk(pt', root, SlotOf(w)) == Walk(s.pt, root, SlotOf(w))
      {
        forall k: nat | k < n ensures PageSlot(virt, k) != SlotOf(w) {
          SlotsInjective(virt + k * PAGE_2M, w);
        }
      }
    }
  }

  lemma AlignedPage(phys: nat, k: nat)
    requires phys % PAGE_2M == 0
    ensures (phys + k * PAGE_2M) % PAGE_2M == 0
  {
  }
}
