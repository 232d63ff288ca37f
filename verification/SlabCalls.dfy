/** kmalloc and kfree as whole calls: they keep the invariant, kmalloc faults exactly when the
    frames it needs are not there, and kfree of a held block gives exactly that block back. */
module SlabCalls {
  import opened Words
  import opened Frames
  import opened Slabs
  import opened SlabBooks
  import opened SlabOwnership
  import opened SlabSteps

  function FreeFrames(m: Mem): (r: int) { m.fr.NoPage() - m.fr.used }

  lemma FreeFramesFacts(m: Mem)
    requires m.fr.Consistent()
    ensures FreeFrames(m) >= 0
    ensures FreeFrames(m) == 0 <==> Alloc(m.fr, 1, PG_KERNEL).NoRun?
    ensures FreeFrames(m) > 0 ==> Alloc(m.fr, 1, PG_KERNEL).Run?
                                  && Alloc(m.fr, 1, PG_KERNEL).state.used == m.fr.used + 1
  {
    var b := m.fr.bits[..m.fr.NoPage()];
    CountSetFull(b);
    AllocOne(m.fr, PG_KERNEL);
    assert forall k: nat | k < |b| :: m.fr.Free(k) <==> !b[k];
    if FreeFrames(m) > 0 {
      var k :| 0 <= k < |b| && !b[k];
      assert m.fr.Free(k);
    }
  }

  /** No slab of m moved or changed its class, and new ones are at the ends of the lists. */
  ghost predicate SlabsKept(m: Mem, m': Mem)
  {
    && (forall f | f in m.slabs :: f in m'.slabs && m'.slabs[f].cls == m.slabs[f].cls)
    && |m.caches| == |m'.caches| && forall i | 0 <= i < |m.caches| :: m.caches[i].order <= m'.caches[i].order
  }

  /** A call handed out block a of class i, new to everybody, and nothing else changed hands. */
  ghost predicate HandedOut(m: Mem, o: Owners, i: nat, m': Mem, o': Owners, a: nat)
  {
    && a !in o.held && a !in o.meta && BlockOf(m', a, i) && SlabsKept(m, m')
    && m'.fr.NoPage() == m.fr.NoPage()
    && o'.held == o.held + {a} && o'.user == o.user && o'.base == o.base
    && a !in o'.meta && (forall x | x in o.meta :: x in o'.meta && o'.meta[x] == o.meta[x])
    && Inv(m', o')
  }

  /** The frames that are free or slabs. */
  function OwnFrames(m: Mem): (r: int) { FreeFrames(m) + |m.slabs| }

  ghost predicate OthersSame(m: Mem, m': Mem, i: nat)
    requires |m.caches| == CLASSES == |m'.caches|
  {
    forall k | 0 <= k < CLASSES && k != i :: m'.caches[k].totalFree == m.caches[k].totalFree
  }

  lemma InvBooks(m: Mem, o: Owners)
    requires Inv(m, o)
    ensures Books(m) && |m.caches| == CLASSES && m.fr.Consistent()
  {
  }

  lemma InvCaches(m: Mem, o: Owners)
    requires Inv(m, o)
    ensures |m.caches| == CLASSES && m.fr.Consistent() && |m.fr.refs| == m.fr.NoPage()
  {
  }

  lemma FastCorrect(m: Mem, o: Owners, i: nat)
    requires i < CLASSES == |m.caches| && m.caches[i].totalFree != 0
    requires Inv(m, o)
    ensures Fast(m, i).Got?
    ensures var r := Fast(m, i);
      && HandedOut(m, o, i, r.mem, o.(held := o.held + {r.addr}), r.addr)
      && |r.mem.caches| == CLASSES && OthersSame(m, r.mem, i)
      && r.mem.caches[i].totalFree == m.caches[i].totalFree - 1 && r.mem.fr == m.fr
      && |r.mem.slabs| == |m.slabs|
  {
    hide Inv, Books;
    InvBooks(m, o);
    var f, j := FastFinds(m, i);
    var a := BlockAddr(m, f, j);
    TakeKeepsInv(m, o, f, j, a);
    CountFits(m, f);
    BlockAddress(f, i, j);
    assert Take(m, f, j).slabs.Keys == m.slabs.Keys;
    SameNumber(m.slabs, Take(m, f, j).slabs);
  }

  lemma SameNumber<S, T>(x: map<nat, S>, y: map<nat, T>)
    requires x.Keys == y.Keys
    ensures |x| == |y|
  {
    assert |x| == |x.Keys| && |y| == |y.Keys|;
  }

  lemma OneMore(slabs: map<nat, Slab>, f: nat, s: Slab)
    requires f !in slabs
    ensures |slabs[f := s]| == |slabs| + 1
  {
    assert slabs[f := s].Keys == slabs.Keys + {f};
    assert |slabs| == |slabs.Keys| && |slabs[f := s]| == |slabs[f := s].Keys|;
  }

  lemma CountFits(m: Mem, f: nat)
    requires Books(m) && f in m.slabs
    ensures m.slabs[f].cls < CLASSES && m.slabs[f].count <= PoolCount(m.slabs[f].cls)
  {
  }

  /** A dry small class gets a slab. */
  lemma GrowSmall(m: Mem, o: Owners, i: nat)
    requires i < 5 && |m.caches| == CLASSES && |m.fr.refs| == m.fr.NoPage()
    requires m.caches[i].totalFree == 0 && FreeFrames(m) > 0
    requires Inv(m, o)
    ensures var r := AllocSmall(m, i);
      && r.Got? && HandedOut(m, o, i, r.mem, o.(held := o.held + {r.addr}), r.addr)
      && |r.mem.caches| == CLASSES && OthersSame(m, r.mem, i)
      && FreeFrames(r.mem) == FreeFrames(m) - 1 && OwnFrames(r.mem) == OwnFrames(m)
      && r.mem.caches[i].totalFree == NewCount(i) - 1
  {
    hide Inv, InlineBytes, NewCount, NewMap;
    InvCaches(m, o);
    FreeFramesFacts(m);
    var r := Alloc(m.fr, 1, PG_KERNEL);
    var m0, o0 := m.(fr := r.state), o.(user := o.user + {r.start});
    FrameTakenKeepsInv(m, o, PG_KERNEL);
    AddInlineKeepsInv(m0, o0, r.start, i);
    assert o0.(user := o0.user - {r.start}, held := o0.held + {VA(r.start)}) == o.(held := o.held + {VA(r.start)});
    BlockAddress(r.start, i, 0);
    var hdr := VA(r.start) + InlineBytes(i);
    OneMore(m.slabs, r.start, NewSlab(i, hdr, hdr + SLAB_BYTES));
    FirstBlock(r.start);
  }

  lemma FirstBlock(f: nat)
    ensures VA(f) >= PAGE_OFFSET && FrameOf(VA(f)) == f
  {
  }

  lemma AllocSmallCorrect(m: Mem, o: Owners, i: nat)
    requires i < 5 && |m.caches| == CLASSES && |m.fr.refs| == m.fr.NoPage()
    requires Inv(m, o)
    ensures var r := AllocSmall(m, i);
      && (r.Got? || r.Fault?)
      && (r.Fault? <==> m.caches[i].totalFree == 0 && FreeFrames(m) == 0)
      && (r.Got? ==>
            && HandedOut(m, o, i, r.mem, o.(held := o.held + {r.addr}), r.addr)
            && |r.mem.caches| == CLASSES && OthersSame(m, r.mem, i)
            && FreeFrames(r.mem) == FreeFrames(m) - (if m.caches[i].totalFree == 0 then 1 else 0)
            && OwnFrames(r.mem) == OwnFrames(m)
            && r.mem.caches[i].totalFree == (if m.caches[i].totalFree == 0 then NewCount(i) else m.caches[i].totalFree) - 1)
  {
    hide Inv, AllocSmall, HandedOut, OthersSame, NewCount, FreeFrames, OwnFrames;
    InvCaches(m, o);
    FreeFramesFacts(m);
    SmallCases(m, i);
    if m.caches[i].totalFree != 0 {
      FastCorrect(m, o, i);
      SameFree(m, Fast(m, i).mem);
    } else if FreeFrames(m) > 0 {
      GrowSmall(m, o, i);
    }
  }

  lemma SameFree(m: Mem, m': Mem)
    requires m'.fr == m.fr && |m'.slabs| == |m.slabs|
    ensures FreeFrames(m') == FreeFrames(m) && OwnFrames(m') == OwnFrames(m)
  {
  }

  lemma SmallCases(m: Mem, i: nat)
    requires i < 5 && |m.caches| == CLASSES && |m.fr.refs| == m.fr.NoPage()
    ensures m.caches[i].totalFree != 0 ==> AllocSmall(m, i) == Fast(m, i)
    ensures m.caches[i].totalFree == 0 && Alloc(m.fr, 1, PG_KERNEL).NoRun? ==> AllocSmall(m, i) == Fault
  {
  }

  /** The frames one kmalloc takes: one for the slab, and one more for each of the header and the
      colour map whose class has no free block at that moment. */
  function FramesNeeded(m: Mem, i: nat): (r: nat)
    requires i < CLASSES == |m.caches|
    ensures r <= 3
  {
    var c := MapClass(i);
    if m.caches[i].totalFree != 0 then 0
    else if i < 5 then 1
    else 1 + (if m.caches[2].totalFree == 0 then 1 else 0)
           + (if m.caches[c].totalFree == (if c == 2 then 1 else 0) then 1 else 0)
  }

  /** The growth of a large class, once its frame is there. */
  lemma GrowLarge(m: Mem, o: Owners, i: nat, p: nat) returns (m': Mem, o': Owners)
    requires 5 <= i < CLASSES == |m.caches| && |m.fr.refs| == m.fr.NoPage() && p in o.user
    requires FreeFrames(m) >= 0
    requires Inv(m, o)
    ensures MapClass(i) < 5 && ClassFor(SLAB_BYTES, 0) == 2
    ensures var c := MapClass(i);
      var need := (if m.caches[2].totalFree == 0 then 1 else 0)
                + (if m.caches[c].totalFree == (if c == 2 then 1 else 0) then 1 else 0);
      var h := AllocSmall(m, 2);
      if FreeFrames(m) < need then
        h.Fault? || (h.Got? && |h.mem.caches| == CLASSES && |h.mem.fr.refs| == h.mem.fr.NoPage()
                     && AllocSmall(h.mem, c).Fault?)
      else
        && h.Got? && |h.mem.caches| == CLASSES && |h.mem.fr.refs| == h.mem.fr.NoPage()
        && var k := AllocSmall(h.mem, c);
           k.Got? && |k.mem.caches| == CLASSES && m' == AddSlab(k.mem, p, NewSlab(i, h.addr, k.addr))
           && FreeFrames(m') == FreeFrames(m) - need && |m'.caches| == CLASSES && OwnFrames(m') == OwnFrames(m) + 1
           && HandedOut(m, o.(user := o.user - {p}), i, m', o', VA(p))
  {
    hide Inv;
    LayoutFacts(i);
    var c := MapClass(i);
    AllocSmallCorrect(m, o, 2);
    var h := AllocSmall(m, 2);
    m', o' := m, o;
    if h.Got? {
      var o1 := o.(held := o.held + {h.addr});
      InvCaches(h.mem, o1);
      FreeFramesFacts(h.mem);
      AllocSmallCorrect(h.mem, o1, c);
      var k := AllocSmall(h.mem, c);
      if k.Got? {
        m', o' := AddLarge(m, o, h.mem, k.mem, i, p, h.addr, k.addr);
      }
    }
  }

  lemma AddLarge(m: Mem, o: Owners, m1: Mem, m2: Mem, i: nat, p: nat, h: nat, k: nat) returns (m': Mem, o': Owners)
    requires 5 <= i < CLASSES && MapClass(i) < 5 && p in o.user
    requires HandedOut(m, o, 2, m1, o.(held := o.held + {h}), h)
    requires HandedOut(m1, o.(held := o.held + {h}), MapClass(i), m2, o.(held := o.held + {h} + {k}), k)
    ensures |m2.caches| == CLASSES == |m'.caches| && m' == AddSlab(m2, p, NewSlab(i, h, k))
    ensures m'.fr == m2.fr && |m'.slabs| == |m2.slabs| + 1
    ensures HandedOut(m, o.(user := o.user - {p}), i, m', o', VA(p))
  {
    hide Inv, MapClass;
    var o2 := o.(held := o.held + {h} + {k});
    InvCaches(m2, o2);
    AddExternalKeepsInv(m2, o2, p, i, h, k);
    SlabFrames(m2, o2);
    BlockAddress(p, i, 0);
    NewIsFresh(m1, m2, h, 2);
    SizeFacts(i);
    m' := AddSlab(m2, p, NewSlab(i, h, k));
    OneMore(m2.slabs, p, NewSlab(i, h, k));
    o' := Owners(o2.held - {h, k} + {VA(p)}, o2.meta[h := p][k := p], o2.user - {p}, o2.base);
    assert o'.held == o.held + {VA(p)};
  }

  lemma NewIsFresh(m: Mem, m': Mem, a: nat, i: nat)
    requires BlockOf(m, a, i) && SlabsKept(m, m')
    ensures BlockOf(m', a, i)
  {
  }

  lemma AllocLargeCorrect(m: Mem, o: Owners, i: nat) returns (o': Owners)
    requires 5 <= i < CLASSES == |m.caches| && |m.fr.refs| == m.fr.NoPage()
    requires m.caches[i].totalFree == 0
    requires Inv(m, o)
    ensures var r := AllocClass(m, i);
      && (r.Got? || r.Fault?)
      && (r.Fault? <==> FreeFrames(m) < FramesNeeded(m, i))
      && (r.Got? ==> && HandedOut(m, o, i, r.mem, o', r.addr) && OwnFrames(r.mem) == OwnFrames(m)
                     && FreeFrames(r.mem) == FreeFrames(m) - FramesNeeded(m, i))
  {
    hide Inv, BlockOf, AllocSmall, AddSlab, NewSlab, MapClass, NewCount, InlineBytes, MapBytes;
    o' := o;
    InvCaches(m, o);
    FreeFramesFacts(m);
    LayoutFacts(i);
    if FreeFrames(m) > 0 {
      var r := Alloc(m.fr, 1, PG_KERNEL);
      var m0, o0 := m.(fr := r.state), o.(user := o.user + {r.start});
      FrameTakenKeepsInv(m, o, PG_KERNEL);
      InvCaches(m0, o0);
      var m1;
      m1, o' := GrowLarge(m0, o0, i, r.start);
      assert o0.(user := o0.user - {r.start}) == o;
    }
  }

  /** kmalloc. Too large a size gives null. Otherwise the call faults exactly when fewer frames
      are free than it needs; and if it does not, it hands out a block of the right class that
      nobody had, takes exactly those frames, and keeps the invariant. */
  lemma KmallocCorrect(m: Mem, o: Owners, size: nat) returns (o': Owners)
    requires |m.caches| == CLASSES && |m.fr.refs| == m.fr.NoPage()
    requires Inv(m, o)
    ensures var r := Kmalloc(m, size);
      && (r.Null? <==> size > MAX_BLOCK)
      && !r.Stuck?
      && (size <= MAX_BLOCK ==>
            var i := ClassFor(size, 0);
            && (r.Fault? <==> FreeFrames(m) < FramesNeeded(m, i))
            && (r.Got? ==> && HandedOut(m, o, i, r.mem, o', r.addr) && OwnFrames(r.mem) == OwnFrames(m)
                           && FreeFrames(r.mem) == FreeFrames(m) - FramesNeeded(m, i)))
  {
    hide Inv;
    o' := o;
    if size <= MAX_BLOCK {
      var i := ClassFor(size, 0);
      InvCaches(m, o);
      FreeFramesFacts(m);
      if m.caches[i].totalFree != 0 {
        FastCorrect(m, o, i);
        o' := o.(held := o.held + {Fast(m, i).addr});
      } else if i < 5 {
        AllocSmallCorrect(m, o, i);
        var r := AllocSmall(m, i);
        if r.Got? { o' := o.(held := o.held + {r.addr}); }
      } else {
        o' := AllocLargeCorrect(m, o, i);
      }
    }
  }

  /** With three frames free, kmalloc of a legal size never meets the null page. */
  lemma ThreeFramesSuffice(m: Mem, o: Owners, size: nat)
    requires |m.caches| == CLASSES && |m.fr.refs| == m.fr.NoPage()
    requires Inv(m, o) && FreeFrames(m) >= 3 && size <= MAX_BLOCK
    ensures Kmalloc(m, size).Got? && FreeFrames(Kmalloc(m, size).mem) >= FreeFrames(m) - 3
  {
    hide Inv;
    var o' := KmallocCorrect(m, o, size);
  }

  // ----- kfree -----

  /** A live address is the start of a block whose colour bit is set. */
  lemma LiveBlock(m: Mem, a: nat) returns (f: nat, j: nat)
    requires |m.caches| == CLASSES && LiveAt(m, a)
    ensures a >= PAGE_OFFSET && f == FrameOf(a) && Colored(m, f, j, true)
    ensures a == BlockAddr(m, f, j) && VA(f) <= a && Index(m.slabs[f], f, a) == j
  {
    f := FrameOf(a);
    var s := m.slabs[f];
    var off := (a - PAGE_OFFSET) % PAGE_2M;
    SizeFacts(s.cls);
    j := off / Size(s.cls);
    assert off == a - VA(f);
  }

  lemma HeldIsLive(m: Mem, o: Owners, a: nat)
    requires Inv(m, o) && a in o.held
    ensures Books(m) && |m.caches| == CLASSES && LiveAt(m, a)
  {
  }

  /** Slabs may have gone, but those that are left have the class they had. */
  ghost predicate ClassesKept(m: Mem, m': Mem)
  {
    forall f | f in m'.slabs :: f in m.slabs && m'.slabs[f].cls == m.slabs[f].cls
  }

  // ----- when a slab goes -----

  /** Block a is free again, and this is all that changed. */
  ghost predicate OnlyReturned(m: Mem, a: nat, m': Mem)
  {
    var f := FrameOf(a);
    && f in m.slabs && m.slabs[f].cls < CLASSES && m.slabs[f].cls < |m.caches| && VA(f) <= a
    && var s, c := m.slabs[f], m.caches[m.slabs[f].cls];
       var j := Index(s, f, a);
       && j < |s.colors| && m'.fr == m.fr
       && m'.slabs == m.slabs[f := s.(colors := s.colors[j := false], using := s.using - 1, free := s.free + 1)]
       && m'.caches == m.caches[s.cls := c.(totalFree := c.totalFree + 1, totalUsing := c.totalUsing - 1)]
  }

  /** The slab of frame f goes when its last used block does, if it is not the initial one and the class
      keeps one and a half times its blocks. */
  predicate LastOfSpare(m: Mem, f: nat)
  {
    f in m.slabs && m.slabs[f].cls < |m.caches|
    && var s, c := m.slabs[f], m.caches[m.slabs[f].cls];
       s.using == 1 && c.totalFree + 1 >= s.count * 3 / 2 && c.order != [] && c.order[0] != f
  }

  /** Slab f is gone and its frame is free; of the other slabs only those of its header and of its
      colour map, if these were blocks, may have changed or gone. */
  ghost predicate Gone(m: Mem, f: nat, m': Mem)
    requires f in m.slabs
  {
    var s := m.slabs[f];
    && f !in m'.slabs && m'.fr.Free(f)
    && (forall g | g in m'.slabs :: g in m.slabs)
    && (forall g | g in m.slabs && g != f && (s.cls >= 5 ==> g != FrameOf(s.hdr) && g != FrameOf(s.cmap)) ::
          g in m'.slabs && m'.slabs[g] == m.slabs[g])
  }

  /** What kfree of a block does to slabs and frames: exactly when its slab goes, and that nothing but
      the block changes when it stays. */
  ghost predicate GoesIff(m: Mem, a: nat, m': Mem)
  {
    var f := FrameOf(a);
    && f in m.slabs && (f !in m'.slabs <==> LastOfSpare(m, f))
    && (f !in m'.slabs ==> Gone(m, f, m'))
    && (f in m'.slabs ==> OnlyReturned(m, a, m'))
  }

  /** Frames only come back, one for each slab that goes. */
  ghost predicate FramesBack(m: Mem, m': Mem)
  {
    && OwnFrames(m') == OwnFrames(m) && |m'.slabs| <= |m.slabs|
    && forall k: nat | m.fr.Free(k) :: m'.fr.Free(k)
  }

  lemma FramesBackChain(m: Mem, m1: Mem, m2: Mem)
    requires FramesBack(m, m1) && FramesBack(m1, m2)
    ensures FramesBack(m, m2)
  {
  }

  /** The toggle alone. */
  lemma ToggleReturns(m: Mem, a: nat, f: nat, j: nat)
    requires a >= PAGE_OFFSET && f == FrameOf(a) && Colored(m, f, j, true) && VA(f) <= a && Index(m.slabs[f], f, a) == j
    ensures OnlyReturned(m, a, Toggle(m, f, j)) && FramesBack(m, Toggle(m, f, j))
    ensures m.caches[m.slabs[f].cls].order != [] ==> (Surplus(Toggle(m, f, j), f) <==> LastOfSpare(m, f))
  {
    var m' := Toggle(m, f, j);
    assert m'.slabs.Keys == m.slabs.Keys;
  }

  lemma ListNotEmpty(m: Mem, f: nat)
    requires Books(m) && f in m.slabs
    ensures m.slabs[f].cls < CLASSES == |m.caches| && m.caches[m.slabs[f].cls].order != []
  {
    assert Listed(m, m.slabs[f].cls);
  }

  /** Unlinking a slab and freeing its frame. */
  lemma GoneAlone(m: Mem, a: nat, f: nat, j: nat, m': Mem)
    requires f == FrameOf(a) && Colored(m, f, j, true)
    requires f < m.fr.NoPage() && !m.fr.Free(f) && m'.fr.Free(f)
    requires |m.fr.refs| == m.fr.NoPage() <= |m.fr.bits| && Release(m.fr, f * PAGE_2M, 1) == Freed(m'.fr)
    requires m'.slabs == Toggle(m, f, j).slabs - {f}
    ensures Gone(m, f, m') && FramesBack(m, m')
  {
    assert m'.slabs.Keys == m.slabs.Keys - {f};
    assert |m'.slabs| == |m'.slabs.Keys| && |m.slabs| == |m.slabs.Keys|;
  }

  /** Freeing a held block of a small class. */
  lemma FreeSmallCorrect(m: Mem, o: Owners, a: nat)
    requires |m.caches| == CLASSES && a in o.held
    requires BlockOf(m, a, 0) || BlockOf(m, a, 1) || BlockOf(m, a, 2) || BlockOf(m, a, 3) || BlockOf(m, a, 4)
    requires Inv(m, o)
    ensures FreeSmall(m, a).Done?
    ensures var m' := FreeSmall(m, a).mem;
      && |m'.caches| == CLASSES && Inv(m', o.(held := o.held - {a}))
      && m'.fr.NoPage() == m.fr.NoPage()
      && ClassesKept(m, m') && FramesBack(m, m') && GoesIff(m, a, m')
  {
    hide Inv, Books, FramesBack, Gone, OnlyReturned, LastOfSpare, Surplus;
    HeldIsLive(m, o, a);
    var f, j := LiveBlock(m, a);
    ListNotEmpty(m, f);
    var m1, o1 := Toggle(m, f, j), o.(held := o.held - {a});
    ToggleKeepsInv(m, o, f, j, a);
    ToggleReturns(m, a, f, j);
    if Surplus(m1, f) {
      GiveBack(m1, o1, f);
      SlabFrames(m1, o1);
      GoneAlone(m, a, f, j, DropFrame(Detach(m1, f), f));
    }
  }

  /** Unlinking a surplus slab and giving its frame back. */
  lemma GiveBack(m: Mem, o: Owners, f: nat)
    requires |m.caches| == CLASSES && f in m.slabs && m.slabs[f].cls < CLASSES && Surplus(m, f)
    requires Inv(m, o)
    ensures var u := Unlinked(m, o, f);
      && |Detach(m, f).caches| == CLASSES && Inv(Detach(m, f), u) && f in u.user
      && Inv(DropFrame(Detach(m, f), f), u.(user := u.user - {f}))
      && DropFrame(Detach(m, f), f) == Detach(m, f).(fr := DropFrame(Detach(m, f), f).fr)
      && DropFrame(Detach(m, f), f).fr.NoPage() == m.fr.NoPage()
    ensures m.slabs[f].cls < 5 ==> Unlinked(m, o, f).(user := Unlinked(m, o, f).user - {f}) == o
  {
    hide Inv;
    InvBooks(m, o);
    SlabFrames(m, o);
    assert m.slabs[f].cls < CLASSES;
    DetachKeepsInv(m, o, f);
    FrameGivenKeepsInv(Detach(m, f), Unlinked(m, o, f), f);
  }

  /** A block still held after a call is in a slab of the class it was in before. */
  lemma HeldKeepsClass(m: Mem, m': Mem, o': Owners, a: nat, i: nat)
    requires BlockOf(m, a, i) && ClassesKept(m, m') && a in o'.held
    requires Inv(m', o')
    ensures BlockOf(m', a, i)
  {
    hide Inv, Books;
    HeldIsLive(m', o', a);
  }

  lemma SurplusIsExternal(m: Mem, o: Owners, f: nat)
    requires |m.caches| == CLASSES && f in m.slabs && 5 <= m.slabs[f].cls < CLASSES && Surplus(m, f)
    requires Inv(m, o)
    ensures External(m, f) && MetaOf(m, o, f)
    ensures FrameOf(m.slabs[f].hdr) != f && FrameOf(m.slabs[f].cmap) != f
    ensures MapClass(m.slabs[f].cls) < 5
  {
    hide FramesApart, Placed, Blocks, Books, MapClass;
    LayoutFacts(m.slabs[f].cls);
    assert MetaOf(m, o, f);
  }

  /** First half of giving back a large slab: the colour map goes through kfree. */
  lemma FreeMap(m: Mem, o: Owners, f: nat) returns (m2: Mem, o2: Owners)
    requires |m.caches| == CLASSES && f in m.slabs && 5 <= m.slabs[f].cls < CLASSES && Surplus(m, f)
    requires Inv(m, o)
    ensures |Detach(m, f).caches| == CLASSES && FreeSmall(Detach(m, f), m.slabs[f].cmap) == Done(m2)
    ensures |m2.caches| == CLASSES && Inv(m2, o2) && ClassesKept(m, m2) && f !in m2.slabs
    ensures m2.fr.NoPage() == m.fr.NoPage()
    ensures m.slabs[f].hdr !in o.held && f !in o.user && BlockOf(m2, m.slabs[f].hdr, 2)
    ensures o2 == Owners(o.held + {m.slabs[f].hdr}, o.meta - {m.slabs[f].hdr, m.slabs[f].cmap}, o.user + {f}, o.base)
    ensures m.slabs[f].hdr in o.meta && m.slabs[f].cmap in o.meta && m.slabs[f].cmap !in o.held
    ensures FramesBack(Detach(m, f), m2) && OthersStay(Detach(m, f), m2, FrameOf(m.slabs[f].cmap))
  {
    hide Inv, MapClass, FreeSmall, Surplus, FramesBack, OthersStay, GoesIff, ClassesKept, BlockOf, Detach, MetaOf, External;
    InvBooks(m, o);
    SlabFrames(m, o);
    SurplusIsExternal(m, o, f);
    GiveBack(m, o, f);
    var s := m.slabs[f];
    var m1, o1 := Detach(m, f), Unlinked(m, o, f);
    PartsStay(m, o, f);
    MetaNotHeld(m, o, s.cmap);
    MetaNotHeld(m, o, s.hdr);
    SmallClass(m1, s.cmap, MapClass(s.cls));
    FreeSmallCorrect(m1, o1, s.cmap);
    m2, o2 := FreeSmall(m1, s.cmap).mem, o1.(held := o1.held - {s.cmap});
    OnlyItsSlab(m1, s.cmap, m2, MapClass(s.cls));
    HeldKeepsClass(m1, m2, o2, s.hdr, 2);
    DetachedStaysOut(m, f, m2);
  }

  lemma PartsStay(m: Mem, o: Owners, f: nat)
    requires |m.caches| == CLASSES && External(m, f) && MetaOf(m, o, f)
    requires FrameOf(m.slabs[f].hdr) != f && FrameOf(m.slabs[f].cmap) != f
    ensures var s := m.slabs[f];
      && BlockOf(Detach(m, f), s.cmap, MapClass(s.cls)) && BlockOf(Detach(m, f), s.hdr, 2)
      && s.hdr != s.cmap && s.hdr in o.meta && s.cmap in o.meta
  {
    hide MapClass;
  }

  /** All slabs but that of frame g are as they were. */
  ghost predicate OthersStay(m: Mem, m': Mem, g: nat)
  {
    (forall h | h in m'.slabs :: h in m.slabs) && forall h | h in m.slabs && h != g :: h in m'.slabs && m'.slabs[h] == m.slabs[h]
  }

  lemma OnlyItsSlab(m: Mem, a: nat, m': Mem, i: nat)
    requires GoesIff(m, a, m') && BlockOf(m, a, i) && i < 5
    ensures OthersStay(m, m', FrameOf(a))
  {
  }

  lemma DetachedStaysOut(m: Mem, f: nat, m2: Mem)
    requires f in m.slabs && m.slabs[f].cls < |m.caches| && ClassesKept(Detach(m, f), m2)
    ensures f !in m2.slabs && ClassesKept(m, m2)
  {
  }

  /** Giving back an empty slab of a large class: its colour map, its frame and its header, in
      that order, go through kfree and free_pages; and the two blocks are in nobody's hands. */
  lemma FreeLarge(m: Mem, o: Owners, f: nat) returns (o': Owners)
    requires |m.caches| == CLASSES && f in m.slabs && 5 <= m.slabs[f].cls < CLASSES && Surplus(m, f)
    requires Inv(m, o)
    ensures |Detach(m, f).caches| == CLASSES
    ensures var s := m.slabs[f]; var t := FreeParts(Detach(m, f), f, s.cmap, s.hdr);
      && t.Done? && |t.mem.caches| == CLASSES && Inv(t.mem, o') && ClassesKept(m, t.mem)
      && t.mem.fr.NoPage() == m.fr.NoPage()
      && Gone(m, f, t.mem) && FramesBack(m, t.mem) && !LiveAt(t.mem, s.hdr) && !LiveAt(t.mem, s.cmap)
    ensures o'.held == o.held && o'.user == o.user && o'.base == o.base
  {
    hide Inv, FreeSmall, BlockOf, Detach, FramesBack, OthersStay, GoesIff, ClassesKept, Gone, DropFrame, LiveAt;
    var hdr, cmap := m.slabs[f].hdr, m.slabs[f].cmap;
    var m2, o2 := FreeMap(m, o, f);
    FrameGivenKeepsInv(m2, o2, f);
    SlabFrames(m2, o2);
    var m3, o3 := DropFrame(m2, f), o2.(user := o2.user - {f});
    SameSlabs(m2, m3, hdr, 2);
    SmallClass(m3, hdr, 2);
    FreeSmallCorrect(m3, o3, hdr);
    o' := o3.(held := o3.held - {hdr});
    var t := FreeSmall(m3, hdr).mem;
    OnlyItsSlab(m3, hdr, t, 2);
    KeptThrough(m, m2, m3, t);
    GoneWithParts(m, f, m2, m3, t);
    NobodysIsDead(t, o', hdr);
    NobodysIsDead(t, o', cmap);
  }

  lemma KeptThrough(m: Mem, m2: Mem, m3: Mem, t: Mem)
    requires ClassesKept(m, m2) && m3.slabs == m2.slabs && ClassesKept(m3, t)
    ensures ClassesKept(m, t)
  {
  }

  lemma NobodysIsDead(m: Mem, o: Owners, a: nat)
    requires Inv(m, o) && a !in o.held && a !in o.meta
    ensures !LiveAt(m, a)
  {
    hide Books, FramesApart, Placed, Meta, LiveAt;
    assert LiveAt(m, a) || !LiveAt(m, a);
  }

  /** The balance of frames over the three steps. */
  lemma GoneWithParts(m: Mem, f: nat, m2: Mem, m3: Mem, t: Mem)
    requires f in m.slabs && m.slabs[f].cls < |m.caches| && m.slabs[f].cls >= 5 && f !in m2.slabs
    requires FramesBack(Detach(m, f), m2) && OthersStay(Detach(m, f), m2, FrameOf(m.slabs[f].cmap))
    requires m3 == m2.(fr := m3.fr) && m3.fr.Free(f) && f < m2.fr.NoPage() && |m2.fr.refs| == m2.fr.NoPage() <= |m2.fr.bits|
    requires Release(m2.fr, f * PAGE_2M, 1) == Freed(m3.fr)
    requires FramesBack(m3, t) && OthersStay(m3, t, FrameOf(m.slabs[f].hdr))
    ensures Gone(m, f, t) && FramesBack(m, t)
  {
    var d := Detach(m, f);
    assert d.slabs.Keys == m.slabs.Keys - {f};
    assert |d.slabs| == |d.slabs.Keys| && |m.slabs| == |m.slabs.Keys|;
    assert forall k: nat :: m2.fr.Free(k) ==> m3.fr.Free(k);
  }

  lemma SameSlabs(m: Mem, m': Mem, a: nat, i: nat)
    requires BlockOf(m, a, i) && m'.slabs == m.slabs
    ensures BlockOf(m', a, i)
  {
  }

  lemma MetaNotHeld(m: Mem, o: Owners, a: nat)
    requires a in o.meta && Inv(m, o)
    ensures a !in o.held
  {
    hide FramesApart, Placed, Books, Meta;
    assert LiveAt(m, a) || !LiveAt(m, a);
  }

  lemma SmallClass(m: Mem, a: nat, i: nat)
    requires BlockOf(m, a, i) && i < 5
    ensures BlockOf(m, a, 0) || BlockOf(m, a, 1) || BlockOf(m, a, 2) || BlockOf(m, a, 3) || BlockOf(m, a, 4)
  {
  }

  /** kfree of a held block: the call succeeds, exactly this block leaves the callers' hands, every
      other held block stays, and the invariant is kept, however many slabs were given back. The
      block's slab goes, and its frame and for a large class its header and map are free again, exactly
      if this was its last used block, it is not the class's initial slab, and the class has one and a
      half times the slab's blocks free; otherwise nothing but the block changes. Every slab that goes
      gives back one frame. */
  lemma KfreeCorrect(m: Mem, o: Owners, a: nat) returns (o': Owners)
    requires |m.caches| == CLASSES && a in o.held
    requires Inv(m, o)
    ensures Kfree(m, a).Done?
    ensures Inv(Kfree(m, a).mem, o') && ClassesKept(m, Kfree(m, a).mem)
    ensures Kfree(m, a).mem.fr.NoPage() == m.fr.NoPage()
    ensures o'.held == o.held - {a} && o'.user == o.user && o'.base == o.base
    ensures var m' := Kfree(m, a).mem; var f := FrameOf(a);
      && GoesIff(m, a, m') && FramesBack(m, m')
      && (f !in m'.slabs && m.slabs[f].cls >= 5 ==> !LiveAt(m', m.slabs[f].hdr) && !LiveAt(m', m.slabs[f].cmap))
  {
    hide Inv, Books, FramesBack, Gone, OnlyReturned, LastOfSpare, Surplus, LiveAt, FreeParts, FreeSmall;
    HeldIsLive(m, o, a);
    var f, j := LiveBlock(m, a);
    ListNotEmpty(m, f);
    var m1, o1 := Toggle(m, f, j), o.(held := o.held - {a});
    o' := o1;
    if m.slabs[f].cls < 5 {
      SmallClass(m, a, m.slabs[f].cls);
      FreeSmallCorrect(m, o, a);
    } else {
      ToggleKeepsInv(m, o, f, j, a);
      ToggleReturns(m, a, f, j);
      if Surplus(m1, f) {
        o' := FreeLarge(m1, o1, f);
        var t := FreeParts(Detach(m1, f), f, m.slabs[f].cmap, m.slabs[f].hdr).mem;
        GoneFrom(m, m1, f, t);
        FramesBackChain(m, m1, t);
      }
    }
  }

  lemma GoneFrom(m: Mem, m1: Mem, f: nat, t: Mem)
    requires f in m.slabs && f in m1.slabs && m1.slabs == m.slabs[f := m1.slabs[f]] && Gone(m1, f, t)
    requires m1.slabs[f].(colors := m.slabs[f].colors, using := m.slabs[f].using, free := m.slabs[f].free) == m.slabs[f]
    ensures Gone(m, f, t)
  {
  }
}
