/** Each elementary step of kmalloc and kfree keeps the allocator's invariant. */
module SlabSteps {
  import opened Frames
  import opened Slabs
  import opened SlabBooks
  import opened SlabOwnership

  // ----- parts of the invariant that a step does not touch -----

  /** Only colours and counters changed: who owns which frame, header and map did not. */
  ghost predicate SameShape(m: Mem, m': Mem)
  {
    && |m.caches| == |m'.caches| == CLASSES
    && m'.slabs.Keys == m.slabs.Keys
    && (forall f | f in m.slabs :: var s, t := m.slabs[f], m'.slabs[f];
          s.cls == t.cls && s.count == t.count && s.hdr == t.hdr && s.cmap == t.cmap)
    && (forall i | 0 <= i < CLASSES :: m.caches[i].order == m'.caches[i].order)
  }

  ghost predicate AllPlaced(m: Mem, base: nat)
  {
    |m.caches| == CLASSES && forall f | f in m.slabs :: m.slabs[f].cls < CLASSES && Placed(m, f, base)
  }

  lemma InvParts(m: Mem, o: Owners)
    ensures Inv(m, o) <==>
      Books(m) && FramesApart(m, o) && AllPlaced(m, o.base) && Meta(m, o) && Blocks(m, o) && PoolsApart(m)
  {
  }

  /** The initial slabs stay, and their headers and maps where they are. */
  lemma PoolsStay(m: Mem, m': Mem)
    requires |m.caches| == CLASSES == |m'.caches| && PoolsApart(m)
    requires forall f | IsPool(m', f) ::
      IsPool(m, f) && m'.slabs[f].hdr == m.slabs[f].hdr && m'.slabs[f].cmap == m.slabs[f].cmap && m'.slabs[f].count == m.slabs[f].count
    ensures PoolsApart(m')
  {
    hide Disjoint;
  }

  lemma ShapeKeepsPools(m: Mem, m': Mem)
    requires SameShape(m, m') && PoolsApart(m)
    ensures PoolsApart(m')
  {
    PoolsStay(m, m');
  }

  lemma AddKeepsPools(m: Mem, f: nat, s: Slab)
    requires Books(m) && f !in m.slabs && s.cls < CLASSES && PoolsApart(m)
    ensures PoolsApart(AddSlab(m, f, s))
  {
    AddPool(m, f, s);
    hide Books;
    PoolsStay(m, AddSlab(m, f, s));
  }

  lemma DetachKeepsPools(m: Mem, f: nat)
    requires Books(m) && f in m.slabs && !IsPool(m, f) && PoolsApart(m)
    ensures m.slabs[f].cls < |m.caches| && PoolsApart(Detach(m, f))
  {
    Sixteen(m);
    DetachPool(m, f);
    hide Books;
    PoolsStay(m, Detach(m, f));
  }

  lemma ShapeKeepsPlaced(m: Mem, m': Mem, base: nat)
    requires SameShape(m, m') && AllPlaced(m, base)
    ensures AllPlaced(m', base)
  {
  }

  lemma ShapeKeepsMeta(m: Mem, m': Mem, o: Owners, o': Owners)
    requires SameShape(m, m') && AllPlaced(m, o.base) && Meta(m, o) && o'.meta == o.meta
    ensures Meta(m', o')
  {
    hide Placed;
    assert forall f :: External(m', f) <==> External(m, f);
    forall f | External(m', f) ensures MetaOf(m', o', f) {
      assert MetaOf(m, o, f);
    }
  }

  lemma SameFrames(m: Mem, m': Mem, o: Owners, o': Owners)
    requires FramesApart(m, o) && m'.fr == m.fr && m'.slabs.Keys == m.slabs.Keys
    requires o'.user == o.user && o'.base == o.base
    ensures FramesApart(m', o')
  {
  }

  lemma BlockGained(m: Mem, m': Mem, o: Owners, a: nat)
    requires Blocks(m, o) && !LiveAt(m, a)
    requires forall b: nat :: LiveAt(m', b) <==> LiveAt(m, b) || b == a
    ensures a !in o.held && a !in o.meta
    ensures Blocks(m', o.(held := o.held + {a}))
  {
  }

  lemma BlockLost(m: Mem, m': Mem, o: Owners, a: nat)
    requires Blocks(m, o) && a in o.held
    requires forall b: nat :: LiveAt(m', b) <==> LiveAt(m, b) && b != a
    ensures Blocks(m', o.(held := o.held - {a}))
  {
  }

  lemma BlocksSame(m: Mem, m': Mem, o: Owners, o': Owners)
    requires Blocks(m, o) && m'.slabs == m.slabs && o'.held == o.held && o'.meta == o.meta
    ensures Blocks(m', o')
  {
    forall a: nat ensures LiveAt(m', a) == LiveAt(m, a) {}
    hide LiveAt;
  }

  // ----- a block is handed out or comes back -----

  /** Block j of slab f exists, and its colour bit is v. */
  predicate Colored(m: Mem, f: nat, j: nat, v: bool)
  {
    && |m.caches| == CLASSES && f in m.slabs && m.slabs[f].cls < CLASSES
    && j < m.slabs[f].count && j < |m.slabs[f].colors| && m.slabs[f].colors[j] == v
  }

  lemma TakeKeepsInv(m: Mem, o: Owners, f: nat, j: nat, a: nat)
    requires Colored(m, f, j, false) && a == BlockAddr(m, f, j)
    requires Inv(m, o)
    ensures a !in o.held && a !in o.meta && Inv(Take(m, f, j), o.(held := o.held + {a}))
  {
    hide Inv, Books, FramesApart, AllPlaced, Placed, Meta, LiveAt, Blocks, PoolsApart;
    var m' := Take(m, f, j);
    var o' := o.(held := o.held + {a});
    InvParts(m, o);
    InvParts(m', o');
    TakeKeepsBooks(m, f, j);
    LiveTake(m, f, j);
    BlockGained(m, m', o, a);
    SameFrames(m, m', o, o');
    ShapeKeepsPlaced(m, m', o.base);
    ShapeKeepsMeta(m, m', o, o');
    ShapeKeepsPools(m, m');
  }

  lemma ToggleKeepsInv(m: Mem, o: Owners, f: nat, j: nat, a: nat)
    requires Colored(m, f, j, true) && a == BlockAddr(m, f, j) && a in o.held
    requires Inv(m, o)
    ensures Inv(Toggle(m, f, j), o.(held := o.held - {a}))
  {
    hide Inv, Books, FramesApart, AllPlaced, Placed, Meta, LiveAt, Blocks, PoolsApart;
    var m' := Toggle(m, f, j);
    var o' := o.(held := o.held - {a});
    InvParts(m, o);
    InvParts(m', o');
    ToggleKeepsBooksIff(m, f, j);
    LiveToggle(m, f, j);
    BlockLost(m, m', o, a);
    SameFrames(m, m', o, o');
    ShapeKeepsPlaced(m, m', o.base);
    ShapeKeepsMeta(m, m', o, o');
    ShapeKeepsPools(m, m');
  }

  // ----- a page frame is taken from or given back to alloc_pages -----

  lemma FramesChanged(m: Mem, fr: FrameState, o: Owners, o': Owners)
    requires Inv(m, o) && fr.Consistent()
    requires o'.held == o.held && o'.meta == o.meta && FramesApart(m.(fr := fr), o')
    requires o'.base == o.base && forall f | f in m.slabs :: fr.Allocated(f)
    ensures Inv(m.(fr := fr), o')
  {
    hide Inv, Books, FramesApart, AllPlaced, Placed, Meta, LiveAt, Blocks, PoolsApart;
    var m' := m.(fr := fr);
    InvParts(m, o);
    InvParts(m', o');
    FramesKeepBooks(m, fr);
    BlocksSame(m, m', o, o');
    ShapeKeepsPlaced(m, m', o.base);
    ShapeKeepsMeta(m, m', o, o');
    ShapeKeepsPools(m, m');
  }

  lemma SlabFrames(m: Mem, o: Owners)
    requires Inv(m, o)
    ensures m.fr.Consistent() && FramesApart(m, o) && forall f | f in m.slabs :: m.fr.Allocated(f)
  {
  }

  /** alloc_pages(1) outside the slab layer. */
  lemma FrameTakenKeepsInv(m: Mem, o: Owners, flags: nat)
    requires |m.fr.refs| == m.fr.NoPage() && Alloc(m.fr, 1, flags).Run? && Inv(m, o)
    ensures var r := Alloc(m.fr, 1, flags);
      && m.fr.Free(r.start) && r.start !in m.slabs && r.start !in o.user && r.start >= o.base
      && Inv(m.(fr := r.state), o.(user := o.user + {r.start}))
  {
    hide Inv;
    SlabFrames(m, o);
    AllocOne(m.fr, flags);
    var r := Alloc(m.fr, 1, flags);
    assert !m.fr.Allocated(r.start);
    assert forall k: nat :: m.fr.Allocated(k) ==> r.state.Allocated(k);
    FramesChanged(m, r.state, o, o.(user := o.user + {r.start}));
  }

  /** free_pages(_, 1) of a frame obtained outside the slab layer. */
  lemma FrameGivenKeepsInv(m: Mem, o: Owners, f: nat)
    requires f in o.user && Inv(m, o)
    ensures DropFrame(m, f).fr.Free(f)
    ensures Inv(DropFrame(m, f), o.(user := o.user - {f}))
    ensures DropFrame(m, f) == m.(fr := DropFrame(m, f).fr)
    ensures f < m.fr.NoPage() == |m.fr.refs| && m.fr.NoPage() <= |m.fr.bits|
    ensures Release(m.fr, f * PAGE_2M, 1) == Freed(DropFrame(m, f).fr)
  {
    hide Inv;
    SlabFrames(m, o);
    assert m.fr.Allocated(f);
    ReleaseConsistentIff(m.fr, f * PAGE_2M, 1);
    FramesChanged(m, DropFrame(m, f).fr, o, o.(user := o.user - {f}));
  }

  // ----- a frame becomes a slab -----

  lemma Sixteen(m: Mem)
    requires Books(m)
    ensures |m.caches| == CLASSES
  {
  }

  lemma AddPool(m: Mem, f: nat, s: Slab)
    requires Books(m) && f !in m.slabs && s.cls < CLASSES
    ensures !IsPool(AddSlab(m, f, s), f)
    ensures forall g | g in m.slabs :: IsPool(AddSlab(m, f, s), g) == IsPool(m, g)
  {
    assert Listed(m, s.cls);
    forall g | g in m.slabs ensures IsPool(AddSlab(m, f, s), g) == IsPool(m, g) {}
  }

  lemma AddExternals(m: Mem, f: nat, s: Slab)
    requires Books(m) && f !in m.slabs && s.cls < CLASSES
    ensures |m.caches| == CLASSES
    ensures forall g | g != f :: External(AddSlab(m, f, s), g) <==> External(m, g)
    ensures External(AddSlab(m, f, s), f) <==> s.cls >= 5
  {
    AddPool(m, f, s);
    assert |m.caches| == CLASSES;
    hide Books, IsPool;
  }

  ghost predicate OwnPlace(s: Slab, f: nat)
  {
    && s.cls < CLASSES && s.count == NewCount(s.cls)
    && (s.cls < 5 ==> s.hdr == VA(f) + InlineBytes(s.cls) && s.cmap == s.hdr + SLAB_BYTES)
  }

  lemma AddPlaced(m: Mem, f: nat, s: Slab, base: nat)
    requires Books(m) && f !in m.slabs && OwnPlace(s, f) && AllPlaced(m, base)
    ensures AllPlaced(AddSlab(m, f, s), base)
  {
    assert |m.caches| == CLASSES;
    hide Books;
    var m' := AddSlab(m, f, s);
    AddPool(m, f, s);
    forall g | g in m'.slabs ensures m'.slabs[g].cls < CLASSES && Placed(m', g, base) {
      if g != f { assert Placed(m, g, base); }
    }
  }

  lemma AddInlineMeta(m: Mem, f: nat, s: Slab, o: Owners, o': Owners)
    requires Books(m) && f !in m.slabs && s.cls < 5 && Meta(m, o) && o'.meta == o.meta
    ensures |m.caches| == CLASSES && Meta(AddSlab(m, f, s), o')
  {
    hide MapClass, MetaOf;
    AddExternals(m, f, s);
    hide Books, External;
    var m' := AddSlab(m, f, s);
    forall g | External(m', g) ensures MetaOf(m', o', g) {
      AddKeepsMetaOf(m, f, s, o, o', g);
    }
  }

  lemma AddKeepsMetaOf(m: Mem, f: nat, s: Slab, o: Owners, o': Owners, g: nat)
    requires |m.caches| == CLASSES && f !in m.slabs && s.cls < CLASSES && g != f
    requires External(m, g) && External(AddSlab(m, f, s), g) && MetaOf(m, o, g)
    requires forall a | a in o.meta :: a in o'.meta && o'.meta[a] == o.meta[a]
    ensures MetaOf(AddSlab(m, f, s), o', g)
  {
  }

  /** A frame becomes a slab of a small class, which carries its own header and colour map. */
  lemma AddInlineKeepsInv(m: Mem, o: Owners, f: nat, i: nat)
    requires f in o.user && i < 5 && Inv(m, o)
    ensures var hdr := VA(f) + InlineBytes(i);
      && VA(f) !in o.held && VA(f) !in o.meta
      && |m.caches| == CLASSES
      && Inv(AddSlab(m, f, NewSlab(i, hdr, hdr + SLAB_BYTES)),
             o.(user := o.user - {f}, held := o.held + {VA(f)}))
  {
    hide Inv, Books, AllPlaced, Placed, Meta, LiveAt, Blocks, PoolsApart;
    SlabFrames(m, o);
    var hdr := VA(f) + InlineBytes(i);
    var s := NewSlab(i, hdr, hdr + SLAB_BYTES);
    InvParts(m, o);
    Sixteen(m);
    NewSlabOk(i, hdr, hdr + SLAB_BYTES);
    AddSlabKeepsBooks(m, f, s);
    LiveAdd(m, f, i, hdr, hdr + SLAB_BYTES);
    var m', o' := AddSlab(m, f, s), o.(user := o.user - {f}, held := o.held + {VA(f)});
    BlockGained(m, m', o, VA(f));
    AddPlaced(m, f, s, o.base);
    AddInlineMeta(m, f, s, o, o');
    AddKeepsPools(m, f, s);
    BlocksIgnoreFrames(m', o.(held := o.held + {VA(f)}), o');
    InvParts(m', o');
  }

  lemma BlocksIgnoreFrames(m: Mem, o: Owners, o': Owners)
    requires Blocks(m, o) && o'.held == o.held && o'.meta == o.meta
    ensures Blocks(m, o')
  {
  }

  lemma AddExternalMeta(m: Mem, f: nat, s: Slab, o: Owners, o': Owners)
    requires |m.caches| == CLASSES && f !in m.slabs && 5 <= s.cls < CLASSES
    requires s.hdr !in o.meta && s.cmap !in o.meta && s.hdr != s.cmap
    requires o'.meta == o.meta[s.hdr := f][s.cmap := f]
    requires BlockOf(m, s.hdr, 2) && BlockOf(m, s.cmap, MapClass(s.cls))
    requires forall g | g != f :: External(AddSlab(m, f, s), g) <==> External(m, g)
    requires External(AddSlab(m, f, s), f)
    requires Meta(m, o)
    ensures Meta(AddSlab(m, f, s), o')
  {
    hide External, MapClass, MetaOf, BlockOf;
    var m' := AddSlab(m, f, s);
    forall g | External(m', g) ensures MetaOf(m', o', g) {
      if g == f { AddedMetaOf(m, f, s, o'); } else { AddKeepsMetaOf(m, f, s, o, o', g); }
    }
    AddedMetaBack(m, f, s, o, o');
  }

  lemma AddedMetaOf(m: Mem, f: nat, s: Slab, o': Owners)
    requires |m.caches| == CLASSES && f !in m.slabs && s.cls < CLASSES && s.hdr != s.cmap
    requires External(AddSlab(m, f, s), f)
    requires s.hdr in o'.meta && s.cmap in o'.meta && o'.meta[s.hdr] == f == o'.meta[s.cmap]
    requires BlockOf(m, s.hdr, 2) && BlockOf(m, s.cmap, MapClass(s.cls))
    ensures MetaOf(AddSlab(m, f, s), o', f)
  {
  }

  lemma AddedMetaBack(m: Mem, f: nat, s: Slab, o: Owners, o': Owners)
    requires |m.caches| == CLASSES && f !in m.slabs && s.cls < CLASSES && Meta(m, o)
    requires o'.meta == o.meta[s.hdr := f][s.cmap := f]
    requires forall g | g != f :: External(AddSlab(m, f, s), g) <==> External(m, g)
    requires External(AddSlab(m, f, s), f)
    ensures forall a | a in o'.meta :: MetaBack(AddSlab(m, f, s), o', a)
  {
  }

  /** The two blocks change hands from the callers to the allocator itself. */
  lemma BlocksAdopted(m: Mem, o: Owners, o': Owners, x: nat, y: nat, f: nat)
    requires Blocks(m, o) && x in o.held && y in o.held
    requires o'.held == o.held - {x, y} && o'.meta == o.meta[x := f][y := f]
    ensures x !in o.meta && y !in o.meta && Blocks(m, o')
  {
    assert LiveAt(m, x) || !LiveAt(m, x);
    assert LiveAt(m, y) || !LiveAt(m, y);
    hide LiveAt;
  }

  /** A frame becomes a slab of a large class; two blocks already held turn into its header and
      its colour map. */
  lemma AddExternalKeepsInv(m: Mem, o: Owners, f: nat, i: nat, hdr: nat, cmap: nat)
    requires f in o.user && 5 <= i < CLASSES
    requires hdr in o.held && cmap in o.held && hdr != cmap
    requires BlockOf(m, hdr, 2) && BlockOf(m, cmap, MapClass(i))
    requires Inv(m, o)
    ensures |m.caches| == CLASSES && VA(f) !in o.held && VA(f) !in o.meta
    ensures Inv(AddSlab(m, f, NewSlab(i, hdr, cmap)),
                Owners(o.held - {hdr, cmap} + {VA(f)}, o.meta[hdr := f][cmap := f], o.user - {f}, o.base))
  {
    hide Inv, Books, AllPlaced, Placed, Meta, LiveAt, Blocks, PoolsApart;
    SlabFrames(m, o);
    var s := NewSlab(i, hdr, cmap);
    InvParts(m, o);
    Sixteen(m);
    NewSlabOk(i, hdr, cmap);
    AddSlabKeepsBooks(m, f, s);
    LiveAdd(m, f, i, hdr, cmap);
    var m' := AddSlab(m, f, s);
    var mid := o.(held := o.held + {VA(f)});
    var o' := Owners(o.held - {hdr, cmap} + {VA(f)}, o.meta[hdr := f][cmap := f], o.user - {f}, o.base);
    BlockGained(m, m', o, VA(f));
    assert o'.held == mid.held - {hdr, cmap};
    BlocksAdopted(m', mid, o', hdr, cmap, f);
    AddPlaced(m, f, s, o.base);
    AddExternals(m, f, s);
    AddExternalMeta(m, f, s, o, o');
    AddKeepsPools(m, f, s);
    InvParts(m', o');
  }

  // ----- an empty slab becomes a frame again -----

  lemma DetachPool(m: Mem, f: nat)
    requires Books(m) && f in m.slabs && !IsPool(m, f)
    ensures m.slabs[f].cls < |m.caches|
    ensures forall g | g in m.slabs && g != f :: IsPool(Detach(m, f), g) == IsPool(m, g)
  {
    assert Listed(m, m.slabs[f].cls);
    WithoutFacts(m.caches[m.slabs[f].cls].order, f);
    forall g | g in m.slabs && g != f ensures IsPool(Detach(m, f), g) == IsPool(m, g) {}
  }

  lemma DetachPlaced(m: Mem, f: nat, base: nat)
    requires Books(m) && f in m.slabs && !IsPool(m, f) && AllPlaced(m, base)
    ensures AllPlaced(Detach(m, f), base)
  {
    assert |m.caches| == CLASSES;
    hide Books;
    DetachPool(m, f);
    var m' := Detach(m, f);
    forall g | g in m'.slabs ensures m'.slabs[g].cls < CLASSES && Placed(m', g, base) {
      assert Placed(m, g, base);
    }
  }

  /** Detaching a slab that holds no headers or maps itself. */
  lemma DetachMeta(m: Mem, f: nat, o: Owners, o': Owners)
    requires Books(m) && f in m.slabs && !IsPool(m, f) && Meta(m, o)
    requires forall a | a in o.meta :: FrameOf(a) != f
    requires o'.meta == if m.slabs[f].cls >= 5 then o.meta - {m.slabs[f].hdr, m.slabs[f].cmap} else o.meta
    ensures m.slabs[f].cls < |m.caches| == CLASSES && Meta(Detach(m, f), o')
  {
    DetachExternals(m, f);
    hide Books, External, MapClass, MetaOf;
    var m' := Detach(m, f);
    forall g | External(m', g) ensures MetaOf(m', o', g) {
      DetachKeepsMetaOf(m, f, o, o', g);
    }
    DetachedMetaBack(m, f, o, o');
  }

  lemma DetachKeepsMetaOf(m: Mem, f: nat, o: Owners, o': Owners, g: nat)
    requires |m.caches| == CLASSES && f in m.slabs && m.slabs[f].cls < CLASSES && g != f
    requires External(m, g) && External(Detach(m, f), g)
    requires MetaOf(m, o, g) && (m.slabs[f].cls >= 5 ==> External(m, f) && MetaOf(m, o, f))
    requires forall a | a in o.meta :: FrameOf(a) != f
    requires o'.meta == if m.slabs[f].cls >= 5 then o.meta - {m.slabs[f].hdr, m.slabs[f].cmap} else o.meta
    ensures MetaOf(Detach(m, f), o', g)
  {
  }

  lemma DetachedMetaBack(m: Mem, f: nat, o: Owners, o': Owners)
    requires |m.caches| == CLASSES && f in m.slabs && m.slabs[f].cls < CLASSES && Meta(m, o)
    requires o'.meta == if m.slabs[f].cls >= 5 then o.meta - {m.slabs[f].hdr, m.slabs[f].cmap} else o.meta
    requires forall g | g != f :: External(Detach(m, f), g) <==> External(m, g)
    requires External(m, f) <==> m.slabs[f].cls >= 5
    ensures forall a | a in o'.meta :: MetaBack(Detach(m, f), o', a)
  {
  }

  lemma DetachExternals(m: Mem, f: nat)
    requires Books(m) && f in m.slabs && !IsPool(m, f)
    ensures |m.caches| == CLASSES && m.slabs[f].cls < CLASSES
    ensures forall g | g != f :: External(Detach(m, f), g) <==> External(m, g)
    ensures !External(Detach(m, f), f) && (External(m, f) <==> m.slabs[f].cls >= 5)
  {
    DetachPool(m, f);
    assert |m.caches| == CLASSES;
    hide Books, IsPool;
  }

  /** An empty slab holds no live block, in particular no header or colour map. */
  lemma EmptyHoldsNothing(m: Mem, o: Owners, f: nat)
    requires Books(m) && f in m.slabs && m.slabs[f].using == 0 && Blocks(m, o)
    ensures forall a | a in o.meta || a in o.held :: FrameOf(a) != f
  {
    forall a | a in o.meta || a in o.held ensures FrameOf(a) != f {
      assert LiveAt(m, a);
      if FrameOf(a) == f { EmptyNotLive(m, f, a); }
    }
  }

  lemma EmptyNotLive(m: Mem, f: nat, a: nat)
    requires Books(m) && f in m.slabs && m.slabs[f].using == 0 && FrameOf(a) == f
    ensures !LiveAt(m, a)
  {
    var s := m.slabs[f];
    NoneSet(s.colors[..s.count]);
    assert forall j | 0 <= j < s.count :: s.colors[..s.count][j] == s.colors[j];
  }

  /** What the owners are after a slab was unlinked: its frame is free to be given back, and the
      header and colour map of a large slab are two blocks waiting to be freed. */
  function Unlinked(m: Mem, o: Owners, f: nat): (r: Owners)
    requires f in m.slabs
  {
    var s := m.slabs[f];
    if s.cls < 5 then o.(user := o.user + {f})
    else Owners(o.held + {s.hdr, s.cmap}, o.meta - {s.hdr, s.cmap}, o.user + {f}, o.base)
  }

  lemma BlocksReturned(m: Mem, o: Owners, o': Owners, x: nat, y: nat)
    requires Blocks(m, o) && x in o.meta && y in o.meta
    requires o'.held == o.held + {x, y} && o'.meta == o.meta - {x, y}
    ensures Blocks(m, o')
  {
  }

  lemma DetachKeepsInv(m: Mem, o: Owners, f: nat)
    requires |m.caches| == CLASSES && f in m.slabs && m.slabs[f].cls < CLASSES
    requires m.slabs[f].using == 0 && !IsPool(m, f)
    requires Inv(m, o)
    ensures Inv(Detach(m, f), Unlinked(m, o, f))
  {
    hide Inv, Books, AllPlaced, Placed, Meta, LiveAt, Blocks, PoolsApart;
    SlabFrames(m, o);
    InvParts(m, o);
    var m', o' := Detach(m, f), Unlinked(m, o, f);
    PoolsExist(m, f);
    DetachKeepsBooks(m, f);
    LiveDetach(m, f);
    EmptyHoldsNothing(m, o, f);
    DetachPlaced(m, f, o.base);
    DetachMeta(m, f, o, o');
    DetachKeepsPools(m, f);
    BlocksRenamed(m, m', o);
    if m.slabs[f].cls >= 5 {
      MetaHas(m, o, f);
      BlocksReturned(m', o, o', m.slabs[f].hdr, m.slabs[f].cmap);
    } else {
      BlocksIgnoreFrames(m', o, o');
    }
    InvParts(m', o');
  }

  lemma PoolsExist(m: Mem, f: nat)
    requires Books(m) && f in m.slabs
    ensures m.slabs[f].cls < CLASSES && m.caches[m.slabs[f].cls].order != []
  {
    assert Listed(m, m.slabs[f].cls);
  }

  lemma MetaHas(m: Mem, o: Owners, f: nat)
    requires |m.caches| == CLASSES && External(m, f) && Meta(m, o)
    ensures MetaOf(m, o, f) && m.slabs[f].hdr in o.meta && m.slabs[f].cmap in o.meta
  {
  }

  lemma BlocksRenamed(m: Mem, m': Mem, o: Owners)
    requires Blocks(m, o) && forall b: nat :: LiveAt(m', b) <==> LiveAt(m, b)
    ensures Blocks(m', o)
  {
  }
}
