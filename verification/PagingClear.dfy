/** pagetable_clear (Kernel/Mem.c), and that it undoes pagetable_init. */
module PagingClear {
  import opened Words
  import opened Frames
  import opened Slabs
  import opened SlabOwnership
  import opened Paging
  import opened PagingSteps
  import opened PagingMaps

  // ----- one page -----

  /** The address a leaf holds, 0 for an empty one. */
  function LeafBase(pt: map<nat, Table>, root: nat, x: Slot): (r: nat)
  {
    if Walk(pt, root, x).Some? then Walk(pt, root, x).value.base else 0
  }

  /** One round: it stops exactly where a level is missing; else it unmaps this page only. */
  lemma ClearStep(s: Memory, l: Levels, o: Owners, root: nat, v: nat)
    requires root in l.l4 && PagingInv(s, l, o)
    ensures var r := ClearPage(s.pt, root, v); var x := SlotOf(v);
      && (r.Some? <==> Reaches2(s.pt, root, x))
      && (r.Some? ==>
            && r.value.0 == LeafBase(s.pt, root, x)
            && Extends(s, l, o, s.(pt := r.value.1), l, o)
            && WritesOnly(s.pt, r.value.1, l, root, x, None)
            && forall y: Slot :: Reaches2(r.value.1, root, y) <==> Reaches2(s.pt, root, y))
  {
    hide Inv, PagingInv, WritesOnly, Extends, SlotOf, Lookup;
    var x := SlotOf(v);
    PagingParts(s, l, o);
    if Reaches2(s.pt, root, x) {
      assert Table3(s.pt, root, x) in l.l3 && Table2(s.pt, root, x) in l.l2;
      LeafWritten(s, l, o, root, x, EMPTY);
      UpperSame(s.pt, l, root, Table2(s.pt, root, x), x.c);
    }
  }

  lemma UpperSame(pt: map<nat, Table>, l: Levels, root: nat, t: nat, pos: nat)
    requires Sized(pt, l) && Linked(pt, l) && root in l.l4 && t in l.l2 && pos < 512
    ensures forall y: Slot :: Reaches2(SetEntry(pt, t, pos, EMPTY), root, y) <==> Reaches2(pt, root, y)
  {
    var pt' := SetEntry(pt, t, pos, EMPTY);
    SetEntryReplaces(pt, t, pos, EMPTY);
    forall y: Slot ensures Reaches2(pt', root, y) <==> Reaches2(pt, root, y) {
      assert Lookup(pt', root, y.a) == Lookup(pt, root, y.a);
      if Lookup(pt, root, y.a) != EMPTY {
        assert Table3(pt, root, y) in l.l3;
      }
    }
  }

  // ----- the loop -----

  /** Pages i to m of the range are unmapped in root and the spaces sharing its tables there; every
      other translation of every space is what it was. */
  ghost predicate RangeCleared(pt: map<nat, Table>, pt': map<nat, Table>, l: Levels, root: nat, virt: nat, i: nat, m: nat)
  {
    && (forall r, k: nat | r in l.l4 && i <= k < m && Shares(pt, r, root, PageSlot(virt, k).a) ::
          Walk(pt', r, PageSlot(virt, k)) == None)
    && (forall r, y: Slot | r in l.l4 && ((forall k: nat | i <= k < m :: PageSlot(virt, k) != y) || !Shares(pt, r, root, y.a)) ::
          Walk(pt', r, y) == Walk(pt, r, y))
  }

  /** All pages from i to m have their tables, and page m, if it is in the range, has not. */
  ghost predicate StopsAt(pt: map<nat, Table>, root: nat, virt: nat, i: nat, n: nat, m: nat)
  {
    i <= m <= n && (forall k: nat | i <= k < m :: Reaches2(pt, root, PageSlot(virt, k)))
    && (m < n ==> !Reaches2(pt, root, PageSlot(virt, m)))
  }

  lemma ClearedStep(pt: map<nat, Table>, pt1: map<nat, Table>, pt2: map<nat, Table>, l: Levels, root: nat,
                    virt: nat, i: nat, m: nat)
    requires root in l.l4 && i < m && m - i <= 0x800_0000 && virt % PAGE_2M == 0 && SameShares(pt, pt1, l)
    requires WritesOnly(pt, pt1, l, root, PageSlot(virt, i), None) && RangeCleared(pt1, pt2, l, root, virt, i + 1, m)
    ensures RangeCleared(pt, pt2, l, root, virt, i, m)
  {
    hide Walk, Shares, Lookup;
    forall k: nat | i < k < m ensures PageSlot(virt, k) != PageSlot(virt, i) {
      RangeSlotsDiffer(virt, i, k);
    }
    hide SlotOf, PageSlot;
    forall r, k: nat | r in l.l4 && i <= k < m && Shares(pt, r, root, PageSlot(virt, k).a)
      ensures Walk(pt2, r, PageSlot(virt, k)) == None
    {
      assert Shares(pt1, r, root, PageSlot(virt, k).a);
      if k == i {
        assert Walk(pt2, r, PageSlot(virt, i)) == Walk(pt1, r, PageSlot(virt, i));
      }
    }
    forall r, y: Slot | r in l.l4 && ((forall k: nat | i <= k < m :: PageSlot(virt, k) != y) || !Shares(pt, r, root, y.a))
      ensures Walk(pt2, r, y) == Walk(pt, r, y)
    {
      assert Shares(pt1, r, root, y.a) <==> Shares(pt, r, root, y.a);
      assert Walk(pt1, r, y) == Walk(pt, r, y);
    }
  }

  /** The loop unmaps the pages in front of the first one without tables, and answers what the last of
      them was backed by. */
  lemma {:induction false} ClearPagesCorrect(s: Memory, l: Levels, o: Owners, root: nat, virt: nat, i: nat, n: nat, last: nat)
    returns (m: nat)
    requires root in l.l4 && virt % PAGE_2M == 0 && i <= n && n - i <= 0x800_0000 && PagingInv(s, l, o)
    ensures StopsAt(s.pt, root, virt, i, n, m)
    ensures var r := ClearPages(s.pt, root, virt, i, n, last);
      && Extends(s, l, o, s.(pt := r.1), l, o) && RangeCleared(s.pt, r.1, l, root, virt, i, m)
      && r.0 == if m == i then last else LeafBase(s.pt, root, PageSlot(virt, m - 1))
    decreases n - i
  {
    hide Inv, PagingInv, ClearPage, WritesOnly, RangeCleared, SlotOf, Reaches2, Walk, Extends;
    m := i;
    ExtendsSelf(s, l, o);
    NothingCleared(s.pt, l, root, virt, i);
    if i < n {
      ClearStep(s, l, o, root, virt + i * PAGE_2M);
      var c := ClearPage(s.pt, root, virt + i * PAGE_2M);
      if c.Some? {
        var s1 := s.(pt := c.value.1);
        ExtendsPaging(s, l, o, s1);
        m := ClearPagesCorrect(s1, l, o, root, virt, i + 1, n, c.value.0);
        var pt2 := ClearPages(s1.pt, root, virt, i + 1, n, c.value.0).1;
        ExtendsChain(s, l, o, s1, l, o, s.(pt := pt2), l, o);
        ClearedStep(s.pt, s1.pt, pt2, l, root, virt, i, m);
        if m > i + 1 { LeafSame(s.pt, s1.pt, l, root, virt, i, m - 1); }
      }
    }
  }

  lemma ExtendsPaging(s: Memory, l: Levels, o: Owners, s1: Memory)
    requires Extends(s, l, o, s1, l, o)
    ensures PagingInv(s1, l, o) && SameShares(s.pt, s1.pt, l)
  {
  }

  lemma LeafSame(pt: map<nat, Table>, pt1: map<nat, Table>, l: Levels, root: nat, virt: nat, i: nat, k: nat)
    requires root in l.l4 && i < k < i + 0x800_0000 && virt % PAGE_2M == 0
    requires WritesOnly(pt, pt1, l, root, PageSlot(virt, i), None)
    ensures LeafBase(pt1, root, PageSlot(virt, k)) == LeafBase(pt, root, PageSlot(virt, k))
  {
    hide Walk, Shares;
    RangeSlotsDiffer(virt, i, k);
  }

  lemma NothingCleared(pt: map<nat, Table>, l: Levels, root: nat, virt: nat, i: nat)
    ensures RangeCleared(pt, pt, l, root, virt, i, i)
  {
  }

  /** pagetable_clear of at most 2^27 pages. */
  lemma ClearCorrect(s: Memory, l: Levels, o: Owners, root: nat, virt: nat, n: nat) returns (m: nat)
    requires root in l.l4 && n <= 0x800_0000 && PagingInv(s, l, o)
    ensures var r := PagetableClear(s.pt, root, virt, n);
      if virt % PAGE_2M != 0 then r == (0, s.pt)
      else
        && StopsAt(s.pt, root, virt, 0, n, m)
        && Extends(s, l, o, s.(pt := r.1), l, o) && RangeCleared(s.pt, r.1, l, root, virt, 0, m)
        && r.0 == if m == 0 then 0 else LeafBase(s.pt, root, PageSlot(virt, m - 1))
  {
    hide PagingInv, ClearPages, RangeCleared, Extends, StopsAt, LeafBase, PageSlot;
    m := 0;
    if virt % PAGE_2M == 0 { m := ClearPagesCorrect(s, l, o, root, virt, 0, n, 0); }
  }

  // ----- mapping and clearing -----

  /** Clearing what was just mapped leaves the range unmapped and every other translation of every
      space as it was before the mapping; the answer is the last page's physical address. If nothing
      was mapped in the range before, all translations are restored. */
  lemma MapThenClear(s: Memory, l: Levels, o: Owners, root: nat, phys: nat, virt: nat, n: nat, attr: Attr)
    requires |s.m.caches| == CLASSES && |s.m.fr.refs| == s.m.fr.NoPage()
    requires root in l.l4 && attr.pde != {} && 0 < n <= 0x800_0000
    requires PagingInv(s, l, o)
    ensures var r := PagetableInit(s, root, phys, virt, n, attr);
      r.Mapped? ==>
        var c := PagetableClear(r.mem.pt, root, virt, n);
        && c.0 == phys + (n - 1) * PAGE_2M
        && RangeCleared(s.pt, c.1, l, root, virt, 0, n)
        && ((forall u, k: nat | u in l.l4 && k < n :: Walk(s.pt, u, PageSlot(virt, k)) == None) ==> SameWalks(s.pt, c.1, l))
  {
    hide Inv, PagingInv, PagetableInit, PagetableClear, Walk, Lookup, SameShares, Shares, SlotOf, PageSlot, LeafBase;
    var r := PagetableInit(s, root, phys, virt, n, attr);
    var l', o' := MapThenTranslate(s, l, o, root, phys, virt, n, attr);
    if r.Mapped? {
      var s1 := r.mem;
      ExtendsLevels(s, l, o, s1, l', o');
      var m := ClearCorrect(s1, l', o', root, virt, n);
      AllReached(s.pt, s1.pt, l, root, virt, phys, n, attr.pde);
      assert m == n;
      LastLeaf(s.pt, s1.pt, l, root, virt, phys, n, attr.pde);
      var pt2 := PagetableClear(s1.pt, root, virt, n).1;
      InitCleared(s.pt, s1.pt, pt2, l, l', root, virt, phys, n, attr.pde);
      if forall u, k: nat | u in l.l4 && k < n :: Walk(s.pt, u, PageSlot(virt, k)) == None {
        RestoresWalks(s.pt, pt2, l, root, virt, n);
      }
    }
  }

  lemma ExtendsLevels(s: Memory, l: Levels, o: Owners, s1: Memory, l1: Levels, o1: Owners)
    requires Extends(s, l, o, s1, l1, o1)
    ensures PagingInv(s1, l1, o1) && l1.l4 == l.l4 && SameShares(s.pt, s1.pt, l)
  {
  }

  lemma AllReached(pt: map<nat, Table>, pt1: map<nat, Table>, l: Levels, root: nat, virt: nat, phys: nat, n: nat, flags: set<Flag>)
    requires root in l.l4 && RangeMapped(pt, pt1, l, root, virt, phys, 0, n, flags)
    ensures forall k: nat | k < n :: Reaches2(pt1, root, PageSlot(virt, k))
  {
    forall k: nat | k < n ensures Reaches2(pt1, root, PageSlot(virt, k)) {
      assert Shares(pt, root, root, PageSlot(virt, k).a);
      assert Walk(pt1, root, PageSlot(virt, k)).Some?;
    }
  }

  lemma LastLeaf(pt: map<nat, Table>, pt1: map<nat, Table>, l: Levels, root: nat, virt: nat, phys: nat, n: nat, flags: set<Flag>)
    requires root in l.l4 && RangeMapped(pt, pt1, l, root, virt, phys, 0, n, flags) && n > 0
    ensures LeafBase(pt1, root, PageSlot(virt, n - 1)) == phys + (n - 1) * PAGE_2M
  {
    hide Walk;
    assert Shares(pt, root, root, PageSlot(virt, n - 1).a);
  }

  lemma InitCleared(pt: map<nat, Table>, pt1: map<nat, Table>, pt2: map<nat, Table>, l: Levels, l1: Levels, root: nat,
                    virt: nat, phys: nat, n: nat, flags: set<Flag>)
    requires root in l.l4 && l1.l4 == l.l4 && SameShares(pt, pt1, l)
    requires RangeMapped(pt, pt1, l, root, virt, phys, 0, n, flags) && RangeCleared(pt1, pt2, l1, root, virt, 0, n)
    ensures RangeCleared(pt, pt2, l, root, virt, 0, n)
  {
    hide Walk, Shares, Lookup, SlotOf, PageSlot;
    forall r, k: nat | r in l.l4 && k < n && Shares(pt, r, root, PageSlot(virt, k).a)
      ensures Walk(pt2, r, PageSlot(virt, k)) == None
    {
      assert Shares(pt1, r, root, PageSlot(virt, k).a);
    }
    forall r, y: Slot | r in l.l4 && ((forall k: nat | 0 <= k < n :: PageSlot(virt, k) != y) || !Shares(pt, r, root, y.a))
      ensures Walk(pt2, r, y) == Walk(pt, r, y)
    {
      assert Shares(pt1, r, root, y.a) <==> Shares(pt, r, root, y.a);
      assert Walk(pt1, r, y) == Walk(pt, r, y);
    }
  }

  lemma RestoresWalks(pt: map<nat, Table>, pt2: map<nat, Table>, l: Levels, root: nat, virt: nat, n: nat)
    requires root in l.l4 && RangeCleared(pt, pt2, l, root, virt, 0, n)
    requires forall u, k: nat | u in l.l4 && k < n :: Walk(pt, u, PageSlot(virt, k)) == None
    ensures SameWalks(pt, pt2, l)
  {
    hide Walk, Shares, PageSlot;
    forall u, y: Slot | u in l.l4 ensures Walk(pt2, u, y) == Walk(pt, u, y) {
      if Shares(pt, u, root, y.a) && exists k: nat :: k < n && PageSlot(virt, k) == y {
        var k: nat :| k < n && PageSlot(virt, k) == y;
      }
    }
  }
}
