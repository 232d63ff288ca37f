/** The page-table code and sys_brk as the kernel runs them, on the allocator of SlabAllocator:
    each loop computes the function of the same name, whose meaning the lemmas state. */
module PageTables {
  import opened Words
  import opened Frames
  import opened Slabs
  import opened SlabOwnership
  import opened SlabCalls
  import opened SlabAllocator
  import opened Paging
  import opened PagingSteps
  import opened PagingMaps
  import opened Brk

  /** Ensure on an empty entry, in terms of what kmalloc answers. */
  lemma EnsureByKmalloc(s: Memory, o: Owners, t: nat, pos: nat, flags: set<Flag>)
    requires t in s.pt && pos < |s.pt[t]| && s.pt[t][pos] == EMPTY && Inv(s.m, o)
    ensures |s.m.caches| == CLASSES && |s.m.fr.refs| == s.m.fr.NoPage()
    ensures match Kmalloc(s.m, PAGE_4K)
      case Got(m, a) => a >= PAGE_OFFSET && Ensure(s, t, pos, flags)
          == PtOk(Memory(m, SetEntry(s.pt[a - PAGE_OFFSET := NoEntries()], t, pos, Paging.Entry(a - PAGE_OFFSET, flags))))
      case Fault => Ensure(s, t, pos, flags) == PtFault
      case _ => false
  {
    hide Inv, Kmalloc, SetEntry;
    InvCaches(s.m, o);
    ClassOfTable();
    var o' := KmallocCorrect(s.m, o, PAGE_4K);
  }

  lemma EndAligned(mm: MM, n: nat)
    requires mm.end == HeapPage(mm, n) && mm.start % PAGE_2M == 0
    ensures mm.end % PAGE_2M == 0
  {
  }

  lemma OneFreed(fs: FrameState, phys: nat)
    requires |fs.refs| == fs.NoPage() <= |fs.bits|
    ensures !Release(fs, phys, 1).Refused? && (Release(fs, phys, 1).Freed? ==> phys / PAGE_2M < fs.NoPage())
  {
  }

  lemma OnePage(pt: map<nat, Table>, root: nat, v: nat)
    requires v % PAGE_2M == 0
    ensures Paging.PagetableClear(pt, root, v, 1) ==
      match ClearPage(pt, root, v) case None => (0, pt) case Some(r) => r
  {
    hide ClearPage;
    assert v + 0 * PAGE_2M == v;
  }

  lemma ExtendsParts(s: Memory, l: Levels, o: Owners, s': Memory, l': Levels, o': Owners)
    requires Extends(s, l, o, s', l', o')
    ensures PagingInv(s', l', o') && l'.l4 == l.l4
    ensures forall t | t in l'.l2 :: t in s'.pt && |s'.pt[t]| == 512
  {
  }

  class AddressSpaces {
    const kernel: Kernel
    var pt: map<nat, Table>     // the memory that holds page tables, by physical address

    constructor (k: Kernel, tables: map<nat, Table>)
      requires k.Valid()
      ensures kernel == k && pt == tables && Valid()
    {
      kernel, pt := k, tables;
    }

    ghost predicate Valid()
      reads this, kernel, kernel.frames, kernel.frames.Repr()
    {
      kernel.Valid()
    }

    ghost function View(): Memory
      reads this, kernel, kernel.frames, kernel.frames.Repr()
    {
      Memory(kernel.View(), pt)
    }

    method Entry(t: nat, pos: nat) returns (e: Paging.Entry)
      ensures e == Lookup(pt, t, pos)
    {
      e := if t in pt && pos < |pt[t]| then pt[t][pos] else EMPTY;
    }

    method Store(t: nat, pos: nat, e: Paging.Entry)
      requires Valid() && t in pt && pos < |pt[t]|
      modifies this
      ensures Valid() && View() == old(View()).(pt := SetEntry(old(pt), t, pos, e))
    {
      pt := pt[t := pt[t][pos := e]];
    }

    /** A fresh table below an empty entry: kmalloc, memset, store. */
    method HangTable(t: nat, pos: nat, flags: set<Flag>, ghost o: Owners) returns (ok: bool)
      requires Valid() && t in pt && pos < |pt[t]| && pt[t][pos] == EMPTY && Inv(View().m, o) && o.base >= 1
      modifies this, kernel, kernel.frames`used, kernel.frames.bits, kernel.frames.attr, kernel.frames.refs
      ensures Valid() && kernel.frames.Repr() == old(kernel.frames.Repr())
      ensures |old(View()).m.caches| == CLASSES && |old(View()).m.fr.refs| == old(View()).m.fr.NoPage()
      ensures match Ensure(old(View()), t, pos, flags)
        case PtOk(s) => ok && View() == s
        case PtFault => !ok
        case PtWild => false
    {
      hide Inv, Slabs.Kmalloc, Ensure, SetEntry;
      EnsureByKmalloc(View(), o, t, pos, flags);
      var b := kernel.Kmalloc(PAGE_4K, o);
      if b == Crash { return false; }
      var n := b.addr - PAGE_OFFSET;
      pt := SetEntry(pt[n := NoEntries()], t, pos, Paging.Entry(n, flags));
      ok := true;
    }

    /** One level of a round of pagetable_init. */
    method EnsureTable(t: nat, pos: nat, flags: set<Flag>, ghost l: Levels, ghost o: Owners)
      returns (ok: bool, ghost l': Levels, ghost o': Owners)
      requires Valid() && (t in l.l4 || t in l.l3) && pos < 512 && PagingInv(View(), l, o)
      modifies this, kernel, kernel.frames`used, kernel.frames.bits, kernel.frames.attr, kernel.frames.refs
      ensures Valid() && kernel.frames.Repr() == old(kernel.frames.Repr())
      ensures |old(View()).m.caches| == CLASSES && |old(View()).m.fr.refs| == old(View()).m.fr.NoPage()
      ensures match Ensure(old(View()), t, pos, flags)
        case PtOk(s) =>
          ok && View() == s && Ensured(old(View()), l, o, t, pos, s, l', o') && FlagsKept(old(View()).pt, s.pt, {})
        case _ => !ok
    {
      hide Inv, PagingInv, Ensured, Slabs.Kmalloc, FlagsAdded, FlagsKept;
      ghost var s := View();
      PagingParts(s, l, o);
      assert t in pt && |pt[t]| == 512;
      l', o' := EnsureCorrect(s, l, o, t, pos, flags);
      if Ensure(s, t, pos, flags).PtOk? { AddedKeeps(s.pt, Ensure(s, t, pos, flags).mem.pt, t, pos, flags); }
      if pt[t][pos] == EMPTY {
        ok := HangTable(t, pos, flags, o);
      } else {
        var e := pt[t][pos];
        Store(t, pos, e.(flags := e.flags + flags));
        ok := true;
      }
    }

    /** One round of pagetable_init. */
    method MapOne(root: nat, v: nat, phys: nat, attr: Attr, ghost l: Levels, ghost o: Owners)
      returns (ok: bool, ghost l': Levels, ghost o': Owners)
      requires Valid() && root in l.l4 && attr.pde != {} && PagingInv(View(), l, o)
      modifies this, kernel, kernel.frames`used, kernel.frames.bits, kernel.frames.attr, kernel.frames.refs
      ensures Valid() && kernel.frames.Repr() == old(kernel.frames.Repr())
      ensures |old(View()).m.caches| == CLASSES && |old(View()).m.fr.refs| == old(View()).m.fr.NoPage()
      ensures match MapPage(old(View()), root, v, phys, attr)
        case PtOk(s) => ok && View() == s && Extends(old(View()), l, o, s, l', o')
        case _ => !ok
    {
      hide Inv, PagingInv, Ensured, Ensure, SetEntry, Extends, WritesOnly, FlagsKept, UpperPage, SameWalks, Reaches2;
      ghost var s := View();
      PagingParts(s, l, o);
      var x := SlotOf(v);
      ghost var l1, o1, l2, o2;
      l', o' := MapPageCorrect(s, l, o, root, v, phys, attr);
      ok, l1, o1 := EnsureTable(root, x.a, attr.pml4e, l, o);
      if !ok { return; }
      ghost var s1 := View();
      EnsuredParts(s, l, o, root, x.a, s1, l1, o1);
      var e4 := Entry(root, x.a);
      ok, l2, o2 := EnsureTable(e4.base, x.b, attr.pdpte, l1, o1);
      if !ok { return; }
      BothEnsured(s, l, o, root, x, s1, l1, o1, View(), l2, o2);
      ExtendsParts(s, l, o, View(), l2, o2);
      var e4' := Entry(root, x.a);
      var e3 := Entry(e4'.base, x.b);
      Store(e3.base, x.c, Paging.Entry(phys, attr.pde));
    }

    /** pagetable_init: the number of pages, or 0 for a misaligned address. */
    method PagetableInit(root: nat, phys: nat, virt: nat, n: nat, attr: Attr, ghost l: Levels, ghost o: Owners)
      returns (ret: nat, crashed: bool)
      requires Valid() && root in l.l4 && attr.pde != {} && n <= 0x800_0000 && PagingInv(View(), l, o)
      modifies this, kernel, kernel.frames`used, kernel.frames.bits, kernel.frames.attr, kernel.frames.refs
      ensures Valid() && kernel.frames.Repr() == old(kernel.frames.Repr())
      ensures |old(View()).m.caches| == CLASSES && |old(View()).m.fr.refs| == old(View()).m.fr.NoPage()
      ensures match PagingMaps.PagetableInit(old(View()), root, phys, virt, n, attr)
        case Zero => ret == 0 && !crashed && View() == old(View())
        case Mapped(s) => ret == n && !crashed && View() == s
        case Crashed => crashed
    {
      hide Inv, PagingInv, MapPage, Extends;
      ghost var s := View();
      PagingParts(s, l, o);
      if virt % PAGE_2M != 0 || phys % PAGE_2M != 0 {
        return 0, false;
      }
      var i := 0;
      ghost var l1, o1 := l, o;
      while i < n
        invariant i <= n && Valid() && kernel.frames.Repr() == old(kernel.frames.Repr())
        invariant PagingInv(View(), l1, o1) && root in l1.l4
        invariant |View().m.caches| == CLASSES && |View().m.fr.refs| == View().m.fr.NoPage()
        invariant MapPages(s, root, virt, phys, 0, n, attr) == MapPages(View(), root, virt, phys, i, n, attr)
      {
        var ok;
        ghost var l2, o2;
        ghost var before := View();
        ok, l2, o2 := MapOne(root, virt + i * PAGE_2M, phys + i * PAGE_2M, attr, l1, o1);
        if !ok {
          ghost var l3, o3 := MapPagesCorrect(before, l1, o1, root, virt, phys, i, n, attr);
          return 0, true;
        }
        ExtendsParts(before, l1, o1, View(), l2, o2);
        PagingParts(View(), l2, o2);
        l1, o1 := l2, o2;
        i := i + 1;
      }
      return n, false;
    }

    /** Virt_To_Phy through the current space. */
    method VirtualToPhysical(root: nat, v: nat) returns (p: nat)
      requires Valid()
      ensures p == VirtToPhy(pt, root, v)
    {
      var offset := v % PAGE_2M;
      var x := SlotOf(v - offset);
      var e4 := Entry(root, x.a);
      var e3 := Entry(e4.base, x.b);
      var e2 := Entry(e3.base, x.c);
      p := e2.base - e2.base % PAGE_2M + offset;
    }

    /** One round of pagetable_clear. */
    method ClearOne(root: nat, v: nat) returns (phys: Option<nat>)
      requires Valid()
      modifies this
      ensures Valid()
      ensures match ClearPage(old(pt), root, v)
        case None => phys == None && View() == old(View())
        case Some(r) => phys == Some(r.0) && View() == old(View()).(pt := r.1)
    {
      var x := SlotOf(v);
      var e4 := Entry(root, x.a);
      if e4 == EMPTY { return None; }
      var e3 := Entry(e4.base, x.b);
      if e3 == EMPTY { return None; }
      var e2 := Entry(e3.base, x.c);
      phys := Some(e2.base);
      pt := SetEntry(pt, e3.base, x.c, EMPTY);
    }

    /** pagetable_clear */
    method PagetableClear(root: nat, virt: nat, n: nat) returns (phys: nat)
      requires Valid()
      modifies this
      ensures Valid() && phys == Paging.PagetableClear(old(pt), root, virt, n).0
      ensures View() == old(View()).(pt := Paging.PagetableClear(old(pt), root, virt, n).1)
    {
      phys := 0;
      if virt % PAGE_2M != 0 { return; }
      var i := 0;
      hide ClearPage;
      while i < n
        invariant 0 <= i <= n && Valid() && View() == old(View()).(pt := pt)
        invariant ClearPages(old(pt), root, virt, 0, n, 0) == ClearPages(pt, root, virt, i, n, phys)
      {
        var r := ClearOne(root, virt + i * PAGE_2M);
        if r == None { return; }
        phys := r.value;
        i := i + 1;
      }
    }
  }

  /** The current process: its mm_struct, over the kernel's memory. */
  class Process {
    const spaces: AddressSpaces
    var mm: MM
    var kthread: bool

    constructor (a: AddressSpaces, m: MM, k: bool)
      requires a.Valid()
      ensures spaces == a && mm == m && kthread == k
    {
      spaces, mm, kthread := a, m, k;
    }

    /** alloc_pages for one frame, from the kernel's allocator. */
    method TakeFrame() returns (p: Option<nat>)
      requires spaces.Valid() && spaces.View().m.fr.Consistent()
      modifies spaces.kernel.frames`used, spaces.kernel.frames.bits, spaces.kernel.frames.attr, spaces.kernel.frames.refs
      ensures spaces.Valid() && spaces.kernel.frames.Repr() == old(spaces.kernel.frames.Repr())
      ensures var s := old(spaces.View());
        match Alloc(s.m.fr, 1, 0)
        case Run(f, fr) => p == Some(f) && spaces.View() == s.(m := s.m.(fr := fr))
        case _ => p == None && spaces.View() == s
    {
      AllocOne(spaces.View().m.fr, 0);
      var wild;
      p, wild := spaces.kernel.frames.AllocPages(1, 0);
    }

    /** One round of the growing loop: a frame, then its mapping at end_brk. */
    method GrowPage(ghost l: Levels, ghost o: Owners, ghost heap: seq<nat>)
      returns (got: bool, crashed: bool, ghost l2: Levels, ghost o2: Owners)
      requires spaces.Valid() && mm.root in l.l4
      requires HeapInv(spaces.View(), o, mm, heap) && Roomy(spaces.View(), mm) && PagingInv(spaces.View(), l, o)
      modifies spaces, spaces.kernel, spaces.kernel.frames`used,
               spaces.kernel.frames.bits, spaces.kernel.frames.attr, spaces.kernel.frames.refs
      ensures spaces.Valid() && spaces.kernel.frames.Repr() == old(spaces.kernel.frames.Repr())
      ensures |old(spaces.View()).m.caches| == CLASSES
      ensures |old(spaces.View()).m.fr.refs| == old(spaces.View()).m.fr.NoPage()
      ensures var s := old(spaces.View()); var a := Alloc(s.m.fr, 1, 0);
        if !a.Run? then !got && !crashed && spaces.View() == s
        else
          && |a.state.refs| == a.state.NoPage()
          && var r := PagingMaps.PagetableInit(s.(m := s.m.(fr := a.state)), mm.root, a.start * PAGE_2M, mm.end, 1, BrkAttr(kthread));
             && got && !r.Zero? && crashed == r.Crashed?
             && (r.Mapped? ==>
                  && spaces.View() == r.mem && |r.mem.m.caches| == CLASSES && |r.mem.m.fr.refs| == r.mem.m.fr.NoPage()
                  && BrkDone(s, l, o, r.mem, l2, o2)
                  && HeapInv(r.mem, o2, mm.(end := mm.end + PAGE_2M), heap + [a.start]))
    {
      hide Inv, PagingInv, HeapInv, PagingMaps.PagetableInit, Alloc, OthersKept, BrkDone, Roomy, Allows, TakeRun;
      ghost var t := spaces.View();
      PagingParts(t, l, o);
      InvCaches(t.m, o);
      l2, o2 := l, o;
      var p := TakeFrame();
      if p == None {
        return false, false, l, o;
      }
      l2, o2 := GrowStep(t, l, o, mm, heap, BrkAttr(kthread));
      FrameTakenKeepsPaging(t, l, o, 0);
      var ret;
      ret, crashed := spaces.PagetableInit(mm.root, p.value * PAGE_2M, mm.end, 1, BrkAttr(kthread),
        l, o.(user := o.user + {p.value}));
      got := true;
    }

    /** The growing loop of sys_brk. */
    method GrowTo(limit: nat, ghost l: Levels, ghost o: Owners, ghost heap: seq<nat>) returns (crashed: bool)
      requires spaces.Valid() && mm.root in l.l4 && limit % PAGE_2M == 0
      requires HeapInv(spaces.View(), o, mm, heap) && Roomy(spaces.View(), mm) && PagingInv(spaces.View(), l, o)
      modifies this`mm, spaces, spaces.kernel, spaces.kernel.frames`used,
               spaces.kernel.frames.bits, spaces.kernel.frames.attr, spaces.kernel.frames.refs
      ensures spaces.Valid() && spaces.kernel.frames.Repr() == old(spaces.kernel.frames.Repr())
      ensures |old(spaces.View()).m.caches| == CLASSES
      ensures |old(spaces.View()).m.fr.refs| == old(spaces.View()).m.fr.NoPage()
      ensures match Grow(old(spaces.View()), old(mm).root, old(mm).end, limit, BrkAttr(kthread))
        case BrkOk(s, end) => !crashed && spaces.View() == s && mm == old(mm).(end := end)
        case BrkCrash => crashed
    {
      hide Inv, PagingInv, HeapInv, PagingMaps.PagetableInit, Alloc, SameShares;
      ghost var s := spaces.View();
      PagingParts(s, l, o);
      ghost var l1, o1, heap1 := l, o, heap;
      while mm.end < limit
        invariant spaces.Valid() && spaces.kernel.frames.Repr() == old(spaces.kernel.frames.Repr())
        invariant mm == old(mm).(end := mm.end) && mm.root in l1.l4
        invariant HeapInv(spaces.View(), o1, mm, heap1) && Roomy(spaces.View(), mm)
        invariant PagingInv(spaces.View(), l1, o1)
        invariant |spaces.View().m.caches| == CLASSES && |spaces.View().m.fr.refs| == spaces.View().m.fr.NoPage()
        invariant Grow(s, mm.root, old(mm).end, limit, BrkAttr(kthread))
               == Grow(spaces.View(), mm.root, mm.end, limit, BrkAttr(kthread))
        decreases limit - mm.end
      {
        ghost var t := spaces.View();
        var got;
        ghost var l2, o2;
        got, crashed, l2, o2 := GrowPage(l1, o1, heap1);
        if !got || crashed {
          return crashed;
        }
        heap1 := heap1 + [Alloc(t.m.fr, 1, 0).start];
        l1, o1 := l2, o2;
        mm := mm.(end := mm.end + PAGE_2M);
      }
      crashed := false;
    }

    /** One turn of the shrinking loop: the page below end_brk goes, or the loop ends. */
    method DropPage(limit: nat) returns (done: bool, crashed: bool)
      requires spaces.Valid() && limit + PAGE_2M <= mm.end && mm.end % PAGE_2M == 0
      modifies this`mm, spaces, spaces.kernel.frames`used,
               spaces.kernel.frames.bits, spaces.kernel.frames.attr, spaces.kernel.frames.refs
      ensures spaces.Valid() && spaces.kernel.frames.Repr() == old(spaces.kernel.frames.Repr())
      ensures var r := Shrink(old(spaces.View()), old(mm).root, old(mm).end, limit);
        if done then if crashed then r == BrkCrash else r == BrkOk(spaces.View(), mm.end) && mm == old(mm)
        else
          && !crashed && mm == old(mm).(end := old(mm).end - PAGE_2M)
          && r == Shrink(spaces.View(), mm.root, mm.end, limit)
    {
      hide ClearPage, Release, Walk, SlotOf;
      ghost var s := spaces.View();
      done, crashed := true, false;
      OnePage(s.pt, mm.root, mm.end - PAGE_2M);
      var phys := spaces.PagetableClear(mm.root, mm.end - PAGE_2M, 1);
      if phys == 0 { return; }
      OneFreed(spaces.View().m.fr, phys);
      var ok, lost := spaces.kernel.frames.FreePages(phys, 1);
      if lost { return true, true; }
      mm := mm.(end := mm.end - PAGE_2M);
      done := false;
    }

    /** The shrinking loop of sys_brk; it does not stop at start_brk. */
    method ShrinkTo(limit: nat) returns (crashed: bool)
      requires spaces.Valid() && mm.end % PAGE_2M == 0
      modifies this`mm, spaces, spaces.kernel.frames`used,
               spaces.kernel.frames.bits, spaces.kernel.frames.attr, spaces.kernel.frames.refs
      ensures spaces.Valid() && spaces.kernel.frames.Repr() == old(spaces.kernel.frames.Repr())
      ensures match Shrink(old(spaces.View()), old(mm).root, old(mm).end, limit)
        case BrkOk(s, end) => !crashed && spaces.View() == s && mm == old(mm).(end := end)
        case BrkCrash => crashed
    {
      hide ClearPage, Release, Walk, SlotOf;
      ghost var s := spaces.View();
      crashed := false;
      while mm.end >= limit + PAGE_2M
        invariant spaces.Valid() && spaces.kernel.frames.Repr() == old(spaces.kernel.frames.Repr())
        invariant mm == old(mm).(end := mm.end) && mm.end % PAGE_2M == 0 && !crashed
        invariant Shrink(s, mm.root, old(mm).end, limit) == Shrink(spaces.View(), mm.root, mm.end, limit)
        decreases mm.end
      {
        var done;
        done, crashed := DropPage(limit);
        if done { return; }
      }
    }

    /** sys_brk, from a well-formed heap, for every argument. */
    method Brk(brk: nat, ghost l: Levels, ghost o: Owners, ghost heap: seq<nat>) returns (ret: nat, crashed: bool)
      requires spaces.Valid() && mm.root in l.l4
      requires HeapInv(spaces.View(), o, mm, heap) && Roomy(spaces.View(), mm) && PagingInv(spaces.View(), l, o)
      modifies this`mm, spaces, spaces.kernel, spaces.kernel.frames`used,
               spaces.kernel.frames.bits, spaces.kernel.frames.attr, spaces.kernel.frames.refs
      ensures spaces.Valid() && spaces.kernel.frames.Repr() == old(spaces.kernel.frames.Repr())
      ensures |old(spaces.View()).m.caches| == CLASSES
      ensures |old(spaces.View()).m.fr.refs| == old(spaces.View()).m.fr.NoPage()
      ensures match SysBrk(old(spaces.View()), old(mm), brk, BrkAttr(kthread))
        case BrkOk(s, end) =>
          && !crashed && spaces.View() == s && mm == old(mm).(end := end)
          && ret == Answer(old(mm), brk, end)
        case BrkCrash => crashed
    {
      hide Inv, PagingInv, HeapInv, Shrink, Grow, Align2M;
      PagingParts(spaces.View(), l, o);
      HeapEnd(spaces.View(), o, mm, heap);
      EndAligned(mm, |heap|);
      var limit := Align2M(brk);
      crashed := false;
      if limit == 0 {
        return mm.start, false;
      } else if limit < mm.end {
        crashed := ShrinkTo(limit);
      } else {
        crashed := GrowTo(limit, l, o, heap);
      }
      ret := mm.end;
    }
  }
}
