/** How many free page frames are enough for pagetable_init, sys_brk and do_fork never to meet the
    null page of kmalloc (Kernel/Mem.c, Kernel/Task.c). */
module FrameBudget {
  import opened Frames
  import opened Slabs
  import opened SlabOwnership
  import opened SlabCalls
  import opened Paging
  import opened PagingSteps
  import opened PagingMaps
  import opened KernelHalf
  import opened Brk
  import opened Fork

  /** One level: a fault exactly when the entry is empty and kmalloc has too few frames for a table. */
  lemma EnsureFrames(s: Memory, l: Levels, o: Owners, t: nat, pos: nat, flags: set<Flag>)
    requires |s.m.caches| == CLASSES && |s.m.fr.refs| == s.m.fr.NoPage()
    requires (t in l.l4 || t in l.l3) && pos < 512 && PagingInv(s, l, o)
    ensures var r := Ensure(s, t, pos, flags); var empty := Lookup(s.pt, t, pos) == EMPTY;
      && (r.PtFault? <==> empty && FreeFrames(s.m) < FramesNeeded(s.m, 7))
      && (r.PtOk? ==> FreeFrames(r.mem.m) == FreeFrames(s.m) - if empty then FramesNeeded(s.m, 7) else 0)
  {
    hide Inv, Linked, Unshared, Housed, FramesNeeded;
    PagingParts(s, l, o);
    assert t in s.pt && |s.pt[t]| == 512;
    if s.pt[t][pos] == EMPTY {
      hide Kmalloc;
      ClassOfTable();
      var o' := KmallocCorrect(s.m, o, PAGE_4K);
    }
  }

  /** One page takes at most six frames for its tables, and six are enough. */
  lemma MapPageFrames(s: Memory, l: Levels, o: Owners, root: nat, v: nat, phys: nat, attr: Attr)
    requires |s.m.caches| == CLASSES && |s.m.fr.refs| == s.m.fr.NoPage()
    requires root in l.l4 && PagingInv(s, l, o)
    ensures var r := MapPage(s, root, v, phys, attr);
      && (FreeFrames(s.m) >= 6 ==> r.PtOk?) && (r.PtOk? ==> FreeFrames(r.mem.m) >= FreeFrames(s.m) - 6)
  {
    hide Inv, PagingInv, Ensure, Ensured, SlotOf, Lookup;
    var x := SlotOf(v);
    EnsureFrames(s, l, o, root, x.a, attr.pml4e);
    var l1, o1 := EnsureCorrect(s, l, o, root, x.a, attr.pml4e);
    if Ensure(s, root, x.a, attr.pml4e).PtOk? {
      var s1 := Ensure(s, root, x.a, attr.pml4e).mem;
      EnsuredParts(s, l, o, root, x.a, s1, l1, o1);
      var t3 := Lookup(s1.pt, root, x.a).base;
      EnsureFrames(s1, l1, o1, t3, x.b, attr.pdpte);
      var l2, o2 := EnsureCorrect(s1, l1, o1, t3, x.b, attr.pdpte);
    }
  }

  /** Six free frames a page are enough for the whole loop. */
  lemma {:induction false} MapPagesFrames(s: Memory, l: Levels, o: Owners, root: nat, virt: nat, phys: nat, i: nat, n: nat, attr: Attr)
    requires |s.m.caches| == CLASSES && |s.m.fr.refs| == s.m.fr.NoPage()
    requires root in l.l4 && attr.pde != {} && i <= n && PagingInv(s, l, o)
    ensures var r := MapPages(s, root, virt, phys, i, n, attr);
      && (FreeFrames(s.m) >= 6 * (n - i) ==> r.PtOk?) && (r.PtOk? ==> FreeFrames(r.mem.m) >= FreeFrames(s.m) - 6 * (n - i))
    decreases n - i
  {
    hide Inv, PagingInv, MapPage, WritesOnly, SlotOf, FreeFrames;
    if i < n {
      MapPageFrames(s, l, o, root, virt + i * PAGE_2M, phys + i * PAGE_2M, attr);
      var l1, o1 := MapPageCorrect(s, l, o, root, virt + i * PAGE_2M, phys + i * PAGE_2M, attr);
      var r := MapPage(s, root, virt + i * PAGE_2M, phys + i * PAGE_2M, attr);
      if r.PtOk? { MapPagesFrames(r.mem, l1, o1, root, virt, phys, i + 1, n, attr); }
    }
  }

  /** pagetable_init of n aligned pages returns n whenever 6 n frames are free, and takes no more. */
  lemma PagetableFrames(s: Memory, l: Levels, o: Owners, root: nat, phys: nat, virt: nat, n: nat, attr: Attr)
    requires |s.m.caches| == CLASSES && |s.m.fr.refs| == s.m.fr.NoPage()
    requires root in l.l4 && attr.pde != {} && virt % PAGE_2M == 0 && phys % PAGE_2M == 0 && PagingInv(s, l, o)
    ensures var r := PagetableInit(s, root, phys, virt, n, attr);
      && (FreeFrames(s.m) >= 6 * n ==> r.Mapped?) && (r.Mapped? ==> FreeFrames(r.mem.m) >= FreeFrames(s.m) - 6 * n)
  {
    hide PagingInv, MapPages, FreeFrames;
    MapPagesFrames(s, l, o, root, virt, phys, 0, n, attr);
  }

  // ----- sys_brk -----

  /** alloc_pages(1) finds a frame exactly when one is free, and takes one. */
  lemma OneFrame(s: Memory, l: Levels, o: Owners)
    requires |s.m.fr.refs| == s.m.fr.NoPage() && PagingInv(s, l, o)
    ensures var a := Alloc(s.m.fr, 1, 0);
      && FreeFrames(s.m) >= 0 && (a.Run? <==> FreeFrames(s.m) > 0)
      && (a.Run? ==> FreeFrames(s.m.(fr := a.state)) == FreeFrames(s.m) - 1)
  {
    hide Inv, Tree;
    InvCaches(s.m, o);
    InvFrames(s.m, o);
    FreeFramesFacts(s.m);
    AllocOne(s.m.fr, 0);
    AllocOne(s.m.fr, PG_KERNEL);
  }

  lemma InvFrames(m: Mem, o: Owners)
    requires Inv(m, o)
    ensures m.fr.Consistent()
  {
  }

  /** One turn of the growing loop with seven free frames. */
  lemma GrowTurn(s: Memory, l: Levels, o: Owners, mm: MM, heap: seq<nat>, attr: Attr)
    requires |s.m.caches| == CLASSES && |s.m.fr.refs| == s.m.fr.NoPage() && FreeFrames(s.m) >= 7
    requires mm.root in l.l4 && attr.pde != {}
    requires HeapInv(s, o, mm, heap) && PagingInv(s, l, o)
    ensures var a := Alloc(s.m.fr, 1, 0);
      && a.Run? && |a.state.refs| == a.state.NoPage()
      && var r := PagetableInit(s.(m := s.m.(fr := a.state)), mm.root, a.start * PAGE_2M, mm.end, 1, attr);
         r.Mapped? && FreeFrames(r.mem.m) >= FreeFrames(s.m) - 7
  {
    hide Inv, PagingInv, HeapInv, PagetableInit, Alloc;
    OneFrame(s, l, o);
    var a := Alloc(s.m.fr, 1, 0);
    FrameTakenKeepsPaging(s, l, o, 0);
    var s1, o1 := s.(m := s.m.(fr := a.state)), o.(user := o.user + {a.start});
    PagingParts(s1, l, o1);
    InvCaches(s1.m, o1);
    HeapAligned(s, o, mm, heap);
    PagetableFrames(s1, l, o1, mm.root, a.start * PAGE_2M, mm.end, 1, attr);
  }

  /** Seven free frames a page let the growing loop reach its limit. */
  lemma {:induction false} GrowMet(s: Memory, l: Levels, o: Owners, mm: MM, heap: seq<nat>, limit: nat, attr: Attr, k: nat)
    requires |s.m.caches| == CLASSES && |s.m.fr.refs| == s.m.fr.NoPage()
    requires mm.root in l.l4 && attr.pde != {} && limit == mm.end + k * PAGE_2M && FreeFrames(s.m) >= 7 * k
    requires HeapInv(s, o, mm, heap) && Roomy(s, mm) && PagingInv(s, l, o)
    ensures var r := Grow(s, mm.root, mm.end, limit, attr); r.BrkOk? && r.end == limit
    decreases k
  {
    hide Inv, PagingInv, HeapInv, PagetableInit, Alloc, OthersKept, FreeFrames, BrkDone, Roomy;
    if k > 0 {
      GrowTurn(s, l, o, mm, heap, attr);
      var l2, o2 := GrowStep(s, l, o, mm, heap, attr);
      var a := Alloc(s.m.fr, 1, 0);
      var r := PagetableInit(s.(m := s.m.(fr := a.state)), mm.root, a.start * PAGE_2M, mm.end, 1, attr);
      var mm2 := mm.(end := mm.end + PAGE_2M);
      StillRoomy(s, l, o, r.mem, l2, o2, mm, mm2);
      GrowMet(r.mem, l2, o2, mm2, heap + [a.start], limit, attr, k - 1);
    }
  }

  lemma StillRoomy(s: Memory, l: Levels, o: Owners, s2: Memory, l2: Levels, o2: Owners, mm: MM, mm2: MM)
    requires Roomy(s, mm) && BrkDone(s, l, o, s2, l2, o2) && mm2.start == mm.start && mm2.root == mm.root && mm.root in l.l4
    ensures Roomy(s2, mm2) && PagingInv(s2, l2, o2) && mm2.root in l2.l4
  {
    hide PagingInv;
  }

  /** sys_brk at or above start_brk always answers the request rounded up to pages, if there are seven
      free frames for each page to be added. */
  lemma SysBrkMet(s: Memory, l: Levels, o: Owners, mm: MM, heap: seq<nat>, brk: nat, attr: Attr)
    requires |s.m.caches| == CLASSES && |s.m.fr.refs| == s.m.fr.NoPage()
    requires mm.root in l.l4 && attr.pde != {} && Align2M(brk) >= mm.start && Align2M(brk) != 0
    requires Align2M(brk) > mm.end ==> FreeFrames(s.m) >= 7 * ((Align2M(brk) - mm.end) / PAGE_2M)
    requires HeapInv(s, o, mm, heap) && Roomy(s, mm) && PagingInv(s, l, o)
    ensures var r := SysBrk(s, mm, brk, attr); r.BrkOk? && r.end == Align2M(brk)
  {
    hide PagingInv, HeapInv, Grow, Shrink, Align2M, Roomy, FreeFrames;
    var limit := Align2M(brk);
    HeapAligned(s, o, mm, heap);
    OneFrame(s, l, o);
    if limit < mm.end {
      var o' := ShrinkCorrect(s, l, o, mm, heap, limit);
    } else {
      var k := (limit - mm.end) / PAGE_2M;
      WholePages(mm.end, limit);
      GrowMet(s, l, o, mm, heap, limit, attr, k);
    }
  }

  lemma WholePages(end: nat, limit: nat)
    requires end % PAGE_2M == 0 && limit % PAGE_2M == 0 && end <= limit
    ensures limit == end + (limit - end) / PAGE_2M * PAGE_2M
  {
  }

  // ----- do_fork -----

  /** The three blocks of the new task take at most nine frames. */
  lemma NewSpaceFrames(s: Memory, l: Levels, o: Owners, parent: nat)
    requires Usable(s.m) && FreeFrames(s.m) >= 9 && PagingInv(s, l, o)
    ensures NewSpace(s, parent).Some?
    ensures FreeFrames(NewSpace(s, parent).value.0.m) >= FreeFrames(s.m) - 9
  {
    hide Inv, PagingInv, Kmalloc, Inherit, FreeFrames;
    ClassOfTable();
    var o1 := Three(s, l, o, STACK_SIZE);
    var s1 := s.(m := Kmalloc(s.m, STACK_SIZE).mem);
    var o2 := Three(s1, l, o1, MM_BYTES);
    var s2 := s1.(m := Kmalloc(s1.m, MM_BYTES).mem);
    var o3 := Three(s2, l, o2, PAGE_4K);
  }

  lemma Three(s: Memory, l: Levels, o: Owners, size: nat) returns (o': Owners)
    requires Usable(s.m) && size <= MAX_BLOCK && FreeFrames(s.m) >= 3 && PagingInv(s, l, o)
    ensures var r := Kmalloc(s.m, size);
      && r.Got? && FreeFrames(r.mem) >= FreeFrames(s.m) - 3 && Usable(r.mem) && PagingInv(s.(m := r.mem), l, o')
      && r.addr >= PAGE_OFFSET
  {
    hide Inv, Tree, Housed, Kmalloc, FreeFrames;
    o' := KmallocKeepsPaging(s, l, o, size);
    ThreeFramesSuffice(s.m, o, size);
  }

  /** One page of the child takes at most seven frames. */
  lemma BackPageFrames(s: Memory, l: Levels, o: Owners, root: nat, v: nat, attr: Attr)
    requires Usable(s.m) && FreeFrames(s.m) >= 7 && root in l.l4 && attr.pde != {} && v % PAGE_2M == 0 && PagingInv(s, l, o)
    ensures Alloc(s.m.fr, 1, 0).Run?
    ensures var r := BackPage(s, root, v, attr); r.Mapped? && FreeFrames(r.mem.m) >= FreeFrames(s.m) - 7
  {
    hide Inv, PagingInv, PagetableInit, Alloc;
    OneFrame(s, l, o);
    var a := Alloc(s.m.fr, 1, 0);
    FrameTakenKeepsPaging(s, l, o, 0);
    var s1, o1 := s.(m := s.m.(fr := a.state)), o.(user := o.user + {a.start});
    PagingParts(s1, l, o1);
    InvCaches(s1.m, o1);
    PagetableFrames(s1, l, o1, root, a.start * PAGE_2M, v, 1, attr);
  }

  /** With 23 free frames do_fork succeeds: three blocks, two pages and their tables. */
  lemma ForkSucceeds(s: Memory, l: Levels, o: Owners, parent: MM, path: bool, attr: Attr)
    requires Usable(s.m) && FreeFrames(s.m) >= 23 && KernelShared(s.pt, l) && parent.root in l.l4 && attr.pde != {}
    requires PagingInv(s, l, o)
    ensures DoFork(s, parent, path, attr).Forked?
  {
    hide Inv, PagingInv, NewSpace, BackPage, KernelShared, FreeFrames, Alloc, Added, SameWalks;
    NewSpaceFrames(s, l, o, parent.root);
    var l1, o1 := NewSpaceCorrect(s, l, o, parent.root);
    var (s1, root) := NewSpace(s, parent.root).value;
    BornParts(s, l, o, s1, l1, o1, root);
    BackPageFrames(s1, l1, o1, root, IMAGE, attr);
    var l2, o2 := BackPageCorrect(s1, l1, o1, root, IMAGE, attr);
    var s2 := BackPage(s1, root, IMAGE, attr).mem;
    AddedParts(s1, l1, o1, s2, l2, o2, root, IMAGE, Alloc(s1.m.fr, 1, 0).start);
    BackPageFrames(s2, l2, o2, root, HEAP, attr);
  }

  lemma BornParts(s: Memory, l: Levels, o: Owners, s1: Memory, l1: Levels, o1: Owners, root: nat)
    requires Born(s, l, o, s1, l1, o1, root)
    ensures PagingInv(s1, l1, o1) && KernelShared(s1.pt, l1) && root in l1.l4
  {
  }
}
