/** Who holds which block. The live blocks are exactly those the callers of kmalloc hold and those
    the allocator itself holds as headers and colour maps of its larger slabs. */
module SlabOwnership {
  import opened Words
  import opened Frames
  import opened Slabs
  import opened SlabBooks

  /** held: blocks callers hold. meta: blocks that are the header or the colour map of a slab, with
      that slab's frame. user: frames handed out by alloc_pages outside the slab layer.
      base: the frames below it hold the kernel image and the boot-time structures. */
  datatype Owners = Owners(held: set<nat>, meta: map<nat, nat>, user: set<nat>, base: nat)

  /** Offset off of a slab is the start of a block in use. */
  predicate LiveIn(s: Slab, off: nat)
  {
    && s.cls < CLASSES
    && (SizeFacts(s.cls); off % Size(s.cls) == 0)
    && (var j := off / Size(s.cls); j < s.count && j < |s.colors| && s.colors[j])
  }

  /** Address a is the start of a block in use. */
  predicate LiveAt(m: Mem, a: nat)
  {
    && a >= PAGE_OFFSET && FrameOf(a) in m.slabs
    && LiveIn(m.slabs[FrameOf(a)], (a - PAGE_OFFSET) % PAGE_2M)
  }

  /** Address of block j of the slab in frame f. */
  function BlockAddr(m: Mem, f: nat, j: nat): (r: nat)
    requires f in m.slabs
  {
    VA(f) + Size(m.slabs[f].cls) * j
  }

  predicate IsPool(m: Mem, f: nat)
    requires |m.caches| == CLASSES
  {
    f in m.slabs && m.slabs[f].cls < CLASSES
    && var order := m.caches[m.slabs[f].cls].order; order != [] && order[0] == f
  }

  /** A slab whose header and colour map are blocks of smaller classes. */
  predicate External(m: Mem, f: nat)
    requires |m.caches| == CLASSES
  {
    f in m.slabs && m.slabs[f].cls >= 5 && !IsPool(m, f)
  }

  /** Where a slab keeps its header and colour map. */
  ghost predicate Placed(m: Mem, f: nat, base: nat)
    requires |m.caches| == CLASSES && f in m.slabs && m.slabs[f].cls < CLASSES
  {
    var s := m.slabs[f];
    if IsPool(m, f) then
      && s.count == PoolCount(s.cls)
      && PAGE_OFFSET <= s.hdr && s.hdr + SLAB_BYTES <= VA(base)
      && PAGE_OFFSET <= s.cmap && s.cmap + MapBytes(s.count) <= VA(base)
    else
      && s.count == NewCount(s.cls)
      && (s.cls < 5 ==> s.hdr == VA(f) + InlineBytes(s.cls) && s.cmap == s.hdr + SLAB_BYTES)
  }

  /** n bytes from a on and k bytes from b on have no byte in common. */
  predicate Disjoint(a: nat, n: nat, b: nat, k: nat)
  {
    a + n <= b || b + k <= a
  }

  /** A slab's header and colour map do not overlap each other. */
  predicate OwnApart(s: Slab)
  {
    Disjoint(s.hdr, SLAB_BYTES, s.cmap, MapBytes(s.count))
  }

  /** Nor those of two slabs. */
  predicate MetaApart(s: Slab, t: Slab)
  {
    && Disjoint(s.hdr, SLAB_BYTES, t.hdr, SLAB_BYTES)
    && Disjoint(s.hdr, SLAB_BYTES, t.cmap, MapBytes(t.count))
    && Disjoint(s.cmap, MapBytes(s.count), t.hdr, SLAB_BYTES)
    && Disjoint(s.cmap, MapBytes(s.count), t.cmap, MapBytes(t.count))
  }

  /** The boot-time headers and maps are apart; those of the later slabs are by where they lie. */
  ghost predicate PoolsApart(m: Mem)
    requires |m.caches| == CLASSES
  {
    && (forall f | IsPool(m, f) :: OwnApart(m.slabs[f]))
    && (forall f, g | IsPool(m, f) && IsPool(m, g) && f != g :: MetaApart(m.slabs[f], m.slabs[g]))
  }

  ghost predicate FramesApart(m: Mem, o: Owners)
  {
    && (forall f | f in m.slabs :: f >= o.base && f !in o.user)
    && (forall f | f in o.user :: f >= o.base && m.fr.Allocated(f))
    && (forall f: nat | f < o.base :: m.fr.Allocated(f))
  }

  /** The allocator's own blocks: each external slab has two, in classes 2 and MapClass. */
  ghost predicate Meta(m: Mem, o: Owners)
    requires |m.caches| == CLASSES
  {
    && (forall a | a in o.meta :: MetaBack(m, o, a))
    && (forall f | External(m, f) :: MetaOf(m, o, f))
  }

  /** a is the header or the colour map of the slab it is booked for. */
  ghost predicate MetaBack(m: Mem, o: Owners, a: nat)
    requires |m.caches| == CLASSES && a in o.meta
  {
    External(m, o.meta[a]) && (a == m.slabs[o.meta[a]].hdr || a == m.slabs[o.meta[a]].cmap)
  }

  ghost predicate MetaOf(m: Mem, o: Owners, f: nat)
    requires |m.caches| == CLASSES && External(m, f)
  {
    var s := m.slabs[f];
    && s.hdr != s.cmap
    && s.hdr in o.meta && o.meta[s.hdr] == f && BlockOf(m, s.hdr, 2)
    && s.cmap in o.meta && o.meta[s.cmap] == f && s.cls < CLASSES && BlockOf(m, s.cmap, MapClass(s.cls))
  }

  /** a lies in a slab of class i. */
  predicate BlockOf(m: Mem, a: nat, i: nat)
  {
    a >= PAGE_OFFSET && FrameOf(a) in m.slabs && m.slabs[FrameOf(a)].cls == i
  }

  ghost predicate Blocks(m: Mem, o: Owners)
  {
    forall a: nat {:trigger LiveAt(m, a)} :: (LiveAt(m, a) <==> a in o.held || a in o.meta) && !(a in o.held && a in o.meta)
  }

  ghost predicate Inv(m: Mem, o: Owners)
  {
    && Books(m) && FramesApart(m, o)
    && (forall f | f in m.slabs :: Placed(m, f, o.base))
    && Meta(m, o) && Blocks(m, o) && PoolsApart(m)
  }

  // ----- addresses -----

  lemma MulDiv(s: nat, j: nat)
    requires s > 0
    ensures s * j / s == j && s * j % s == 0
  {
    var q, r := s * j / s, s * j % s;
    assert s * (j - q) == r;
    if j > q { MulLe(s, 1, j - q); }
  }

  lemma MulLe(s: nat, j: nat, k: nat)
    requires j <= k
    ensures s * j <= s * k
  {
  }

  /** Block j of the slab in frame f lies in that frame and is found again from its address. */
  lemma BlockAddress(f: nat, i: nat, j: nat)
    requires i < CLASSES && j < PoolCount(i)
    ensures var a := VA(f) + Size(i) * j;
      && a >= PAGE_OFFSET && FrameOf(a) == f && (a - PAGE_OFFSET) % PAGE_2M == Size(i) * j
      && Size(i) * j % Size(i) == 0 && Size(i) * j / Size(i) == j
      && Size(i) * j + Size(i) <= PAGE_2M && a % Size(i) == 0
  {
    SizeFacts(i);
    MulDiv(Size(i), j);
    MulLe(Size(i), j + 1, PoolCount(i));
    assert Size(i) * (j + 1) == Size(i) * j + Size(i);
    AlignedBase(f, i);
    var q := (VA(f) / Size(i));
    MulDiv(Size(i), q + j);
    assert VA(f) + Size(i) * j == Size(i) * (q + j);
  }

  lemma AlignedBase(f: nat, i: nat)
    requires i < CLASSES
    ensures VA(f) % Size(i) == 0
  {
    SizeFacts(i);
    var g := f + PAGE_OFFSET / PAGE_2M;
    assert VA(f) == g * PAGE_2M == Size(i) * (PoolCount(i) * g) by {
      assert PAGE_OFFSET % PAGE_2M == 0;
    }
    MulDiv(Size(i), PoolCount(i) * g);
  }

  /** Two different block starts of one slab are at least one block apart. */
  lemma Apart(s: nat, x: nat, y: nat)
    requires s > 0 && x % s == 0 && y % s == 0 && x < y
    ensures x + s <= y
  {
    var p, q := x / s, y / s;
    assert x == s * p && y == s * q;
    if q <= p { MulLe(s, q, p); }
    MulLe(s, p + 1, q);
  }

  // ----- live blocks step by step -----

  /** Changing colour bit j changes only the liveness of block j. */
  lemma LiveInSet(s: Slab, t: Slab, j: nat, off: nat)
    requires s.cls < CLASSES && j < s.count && j < |s.colors|
    requires t.cls == s.cls && t.count == s.count
    requires |t.colors| == |s.colors| && t.colors == s.colors[j := t.colors[j]]
    ensures LiveIn(t, off) <==> if off == Size(s.cls) * j then t.colors[j] else LiveIn(s, off)
  {
  }

  lemma LiveReplace(m: Mem, m': Mem, f: nat, t: Slab, j: nat)
    requires f in m.slabs && m'.slabs == m.slabs[f := t] && m.slabs[f].cls < CLASSES
    requires j < m.slabs[f].count <= PoolCount(m.slabs[f].cls) && j < |m.slabs[f].colors|
    requires |t.colors| == |m.slabs[f].colors| && t.colors == m.slabs[f].colors[j := t.colors[j]]
    requires t.cls == m.slabs[f].cls && t.count == m.slabs[f].count
    ensures var a := VA(f) + Size(t.cls) * j;
      && (LiveAt(m, a) <==> m.slabs[f].colors[j])
      && forall b: nat :: LiveAt(m', b) <==> if b == a then t.colors[j] else LiveAt(m, b)
  {
    var s := m.slabs[f];
    BlockAddress(f, s.cls, j);
    LiveInSet(s, t, j, Size(s.cls) * j);
    LiveInSet(s, s, j, Size(s.cls) * j);
    var a := VA(f) + Size(t.cls) * j;
    forall b: nat ensures LiveAt(m', b) <==> if b == a then t.colors[j] else LiveAt(m, b) {
      if b >= PAGE_OFFSET && FrameOf(b) == f {
        LiveInSet(s, t, j, (b - PAGE_OFFSET) % PAGE_2M);
      }
    }
  }

  lemma BooksAt(m: Mem, f: nat)
    requires Books(m) && f in m.slabs
    ensures |m.caches| == CLASSES && m.slabs[f].cls < CLASSES && m.slabs[f].count <= PoolCount(m.slabs[f].cls)
  {
    hide CountSet, PoolCount;
  }

  lemma LiveTake(m: Mem, f: nat, j: nat)
    requires Books(m) && f in m.slabs && j < m.slabs[f].count
    requires j < |m.slabs[f].colors| && !m.slabs[f].colors[j]
    ensures var a := VA(f) + Size(m.slabs[f].cls) * j;
      && !LiveAt(m, a)
      && forall b: nat :: LiveAt(Take(m, f, j), b) <==> LiveAt(m, b) || b == a
  {
    hide Books, LiveAt;
    BooksAt(m, f);
    LiveReplace(m, Take(m, f, j), f, Used(m.slabs[f], j), j);
  }

  lemma LiveToggle(m: Mem, f: nat, j: nat)
    requires Books(m) && f in m.slabs && j < m.slabs[f].count
    requires j < |m.slabs[f].colors| && m.slabs[f].colors[j]
    ensures var a := VA(f) + Size(m.slabs[f].cls) * j;
      forall b: nat :: LiveAt(Toggle(m, f, j), b) <==> LiveAt(m, b) && b != a
  {
    hide Books, LiveAt;
    BooksAt(m, f);
    LiveReplace(m, Toggle(m, f, j), f, Flipped(m.slabs[f], j), j);
  }

  lemma LiveInNew(i: nat, hdr: nat, cmap: nat, off: nat)
    requires i < CLASSES
    ensures LiveIn(NewSlab(i, hdr, cmap), off) <==> off == 0
  {
  }

  lemma LiveAddSlab(m: Mem, f: nat, s: Slab)
    requires f !in m.slabs && s.cls < |m.caches|
    requires forall off: nat :: LiveIn(s, off) <==> off == 0
    ensures !LiveAt(m, VA(f))
    ensures forall b: nat :: LiveAt(AddSlab(m, f, s), b) <==> LiveAt(m, b) || b == VA(f)
  {
    forall b: nat ensures LiveAt(AddSlab(m, f, s), b) <==> LiveAt(m, b) || b == VA(f) {
      if b >= PAGE_OFFSET && FrameOf(b) == f {
        assert LiveIn(s, (b - PAGE_OFFSET) % PAGE_2M) <==> b == VA(f);
      }
    }
  }

  lemma LiveAdd(m: Mem, f: nat, i: nat, hdr: nat, cmap: nat)
    requires Books(m) && f !in m.slabs && i < CLASSES
    ensures !LiveAt(m, VA(f))
    ensures forall b: nat :: LiveAt(AddSlab(m, f, NewSlab(i, hdr, cmap)), b) <==> LiveAt(m, b) || b == VA(f)
  {
    forall off: nat ensures LiveIn(NewSlab(i, hdr, cmap), off) <==> off == 0 {
      LiveInNew(i, hdr, cmap, off);
    }
    LiveAddSlab(m, f, NewSlab(i, hdr, cmap));
  }

  lemma LiveDetach(m: Mem, f: nat)
    requires Books(m) && f in m.slabs && m.slabs[f].using == 0
    ensures forall b: nat :: LiveAt(Detach(m, f), b) <==> LiveAt(m, b)
  {
    var s := m.slabs[f];
    NoneSet(s.colors[..s.count]);
    forall b: nat ensures LiveAt(Detach(m, f), b) <==> LiveAt(m, b) {
      if b >= PAGE_OFFSET && FrameOf(b) == f {
        assert forall j | 0 <= j < s.count :: s.colors[..s.count][j] == s.colors[j];
        assert !LiveIn(s, (b - PAGE_OFFSET) % PAGE_2M);
      }
    }
  }

  lemma {:induction false} NoneSet(b: seq<bool>)
    requires CountSet(b) == 0
    ensures forall i | 0 <= i < |b| :: !b[i]
  {
    if b != [] {
      NoneSet(b[..|b| - 1]);
      forall i | 0 <= i < |b| ensures !b[i] {
        if i < |b| - 1 { assert !b[..|b| - 1][i]; }
      }
    }
  }
}
