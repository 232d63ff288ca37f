/** What the invariant means for the callers: live blocks never overlap each other or the
    allocator's own data, in every state any run of legal calls can reach. */
module SlabSafety {
  import opened Words
  import opened Frames
  import opened Slabs
  import opened SlabBooks
  import opened SlabOwnership
  import opened SlabSteps
  import opened SlabCalls

  /** The bytes of the block that starts at a. */
  function BlockSize(m: Mem, a: nat): (r: nat)
    requires FrameOf(a) in m.slabs
  {
    Size(m.slabs[FrameOf(a)].cls)
  }

  /** A live block lies in its slab's frame, before the space an inline header would use, and its
      address is a multiple of its size. */
  lemma LiveBlockPlace(m: Mem, a: nat)
    requires Books(m) && LiveAt(m, a)
    ensures var f := FrameOf(a); var s := m.slabs[f];
      && VA(f) <= a && a + BlockSize(m, a) <= VA(f) + s.count * Size(s.cls) <= VA(f) + PAGE_2M
      && a % BlockSize(m, a) == 0
  {
    hide Books;
    Sixteen(m);
    var f, j := LiveBlock(m, a);
    CountFits(m, f);
    var s := m.slabs[f];
    BlockAddress(f, s.cls, j);
    SizeFacts(s.cls);
    MulLe(Size(s.cls), j + 1, s.count);
    MulLe(Size(s.cls), s.count, PoolCount(s.cls));
    assert Size(s.cls) * (j + 1) == Size(s.cls) * j + Size(s.cls);
  }

  /** Two live blocks never overlap. */
  lemma LiveBlocksApart(m: Mem, a: nat, b: nat)
    requires Books(m) && LiveAt(m, a) && LiveAt(m, b) && a != b
    ensures Disjoint(a, BlockSize(m, a), b, BlockSize(m, b))
  {
    LiveBlockPlace(m, a);
    LiveBlockPlace(m, b);
    var f, g := FrameOf(a), FrameOf(b);
    hide Books;
    if f < g {
      assert VA(f) + PAGE_2M <= VA(g);
    } else if g < f {
      assert VA(g) + PAGE_2M <= VA(f);
    } else {
      SizeFacts(m.slabs[f].cls);
      if a < b { Apart(BlockSize(m, a), a, b); } else { Apart(BlockSize(m, a), b, a); }
    }
  }

  // ----- the allocator's own data -----

  lemma InvPlaced(m: Mem, o: Owners, f: nat)
    requires Inv(m, o) && f in m.slabs
    ensures Books(m) && |m.caches| == CLASSES && f >= o.base
    ensures m.slabs[f].cls < CLASSES && Placed(m, f, o.base)
    ensures External(m, f) ==> MetaOf(m, o, f)
  {
  }

  lemma MetaIsLive(m: Mem, o: Owners, a: nat)
    requires Inv(m, o) && a in o.meta
    ensures LiveAt(m, a) && a !in o.held
  {
    hide Books, FramesApart, Placed, Meta;
    assert LiveAt(m, a) || !LiveAt(m, a);
  }

  /** A live block overlaps no header and no map that lies below the slabs' frames or inside its slab. */
  lemma LiveClear(m: Mem, o: Owners, a: nat, f: nat)
    requires Inv(m, o) && LiveAt(m, a) && f in m.slabs && |m.caches| == CLASSES && !External(m, f)
    ensures FrameOf(a) in m.slabs
    ensures Disjoint(a, BlockSize(m, a), m.slabs[f].hdr, SLAB_BYTES)
    ensures Disjoint(a, BlockSize(m, a), m.slabs[f].cmap, MapBytes(m.slabs[f].count))
  {
    hide Inv, Books, LiveAt, BlockOf;
    LiveInSlab(m, a);
    InvPlaced(m, o, f);
    InvPlaced(m, o, FrameOf(a));
    LiveBlockPlace(m, a);
    var s := m.slabs[f];
    if IsPool(m, f) {
      assert VA(o.base) <= VA(FrameOf(a));
    } else {
      LayoutFacts(s.cls);
      FramesOrdered(f, FrameOf(a));
    }
  }

  /** The header and the map of a slab whose metadata are blocks: two live blocks that are large enough. */
  lemma ExternalMeta(m: Mem, o: Owners, f: nat)
    requires Inv(m, o) && |m.caches| == CLASSES && External(m, f)
    ensures f in m.slabs
    ensures var s := m.slabs[f];
      && s.hdr != s.cmap && s.hdr in o.meta && s.cmap in o.meta && o.meta[s.hdr] == f == o.meta[s.cmap]
      && LiveAt(m, s.hdr) && FrameOf(s.hdr) in m.slabs && BlockSize(m, s.hdr) >= SLAB_BYTES
      && LiveAt(m, s.cmap) && FrameOf(s.cmap) in m.slabs && BlockSize(m, s.cmap) >= MapBytes(s.count)
  {
    hide Inv, Books, LiveAt, BlockOf;
    InvPlaced(m, o, f);
    var s := m.slabs[f];
    MetaIsLive(m, o, s.hdr);
    MetaIsLive(m, o, s.cmap);
    CountAtMost(m, o, f);
    MetaBlockSizes(m, o, f);
  }

  lemma CountAtMost(m: Mem, o: Owners, f: nat)
    requires Inv(m, o) && f in m.slabs
    ensures m.slabs[f].count <= PoolCount(m.slabs[f].cls)
  {
    hide CountSet;
  }

  /** A held block overlaps no slab header and no colour map: not those of the boot-time slabs, not
      those inside the slabs of the small classes, not those that are blocks themselves. */
  lemma HeldClearOfMetadata(m: Mem, o: Owners, a: nat, f: nat)
    requires Inv(m, o) && a in o.held && f in m.slabs
    ensures FrameOf(a) in m.slabs
    ensures Disjoint(a, BlockSize(m, a), m.slabs[f].hdr, SLAB_BYTES)
    ensures Disjoint(a, BlockSize(m, a), m.slabs[f].cmap, MapBytes(m.slabs[f].count))
  {
    hide Inv, Books, LiveAt, External, MapBytes;
    HeldIsLive(m, o, a);
    if External(m, f) {
      ExternalMeta(m, o, f);
      MetaIsLive(m, o, m.slabs[f].hdr);
      MetaIsLive(m, o, m.slabs[f].cmap);
      LiveInSlab(m, a);
      LiveBlocksApart(m, a, m.slabs[f].hdr);
      LiveBlocksApart(m, a, m.slabs[f].cmap);
    } else {
      LiveClear(m, o, a, f);
    }
  }

  // ----- headers and maps among themselves -----

  /** The header and the colour map of one slab do not overlap. */
  lemma OwnMetadataApart(m: Mem, o: Owners, f: nat)
    requires Inv(m, o) && f in m.slabs
    ensures OwnApart(m.slabs[f])
  {
    hide Inv, Books, LiveAt, MapBytes;
    InvPlaced(m, o, f);
    PoolsAreApart(m, o);
    if External(m, f) {
      ExternalMeta(m, o, f);
      LiveBlocksApart(m, m.slabs[f].hdr, m.slabs[f].cmap);
    }
  }

  lemma PoolsAreApart(m: Mem, o: Owners)
    requires Inv(m, o)
    ensures Books(m) && |m.caches| == CLASSES && PoolsApart(m)
  {
  }

  /** Headers and colour maps of two slabs do not overlap, wherever they lie. */
  lemma MetadataApart(m: Mem, o: Owners, f: nat, g: nat)
    requires Inv(m, o) && f in m.slabs && g in m.slabs && f != g
    ensures MetaApart(m.slabs[f], m.slabs[g])
  {
    hide Inv, Books, LiveAt, MapBytes, External;
    PoolsAreApart(m, o);
    if External(m, f) {
      if External(m, g) { ExternalsApart(m, o, f, g); } else { ExternalAndOther(m, o, f, g); }
    } else if External(m, g) {
      ExternalAndOther(m, o, g, f);
    } else {
      OthersApart(m, o, f, g);
    }
  }

  lemma ExternalsApart(m: Mem, o: Owners, f: nat, g: nat)
    requires Inv(m, o) && |m.caches| == CLASSES && External(m, f) && External(m, g) && f != g
    ensures MetaApart(m.slabs[f], m.slabs[g])
  {
    hide Inv, Books, LiveAt, MapBytes, External;
    PoolsAreApart(m, o);
    ExternalMeta(m, o, f);
    ExternalMeta(m, o, g);
    var s, t := InSlabs(m, f), InSlabs(m, g);
    LiveBlocksApart(m, s.hdr, t.hdr);
    LiveBlocksApart(m, s.hdr, t.cmap);
    LiveBlocksApart(m, s.cmap, t.hdr);
    LiveBlocksApart(m, s.cmap, t.cmap);
  }

  function InSlabs(m: Mem, f: nat): (s: Slab)
    requires |m.caches| == CLASSES && External(m, f)
  {
    m.slabs[f]
  }

  lemma ExternalAndOther(m: Mem, o: Owners, f: nat, g: nat)
    requires Inv(m, o) && |m.caches| == CLASSES && External(m, f) && g in m.slabs && !External(m, g)
    ensures f in m.slabs && MetaApart(m.slabs[f], m.slabs[g]) && MetaApart(m.slabs[g], m.slabs[f])
  {
    hide Inv, Books, LiveAt, MapBytes, External;
    ExternalMeta(m, o, f);
    var s := InSlabs(m, f);
    LiveClear(m, o, s.hdr, g);
    LiveClear(m, o, s.cmap, g);
  }

  lemma OthersApart(m: Mem, o: Owners, f: nat, g: nat)
    requires Inv(m, o) && |m.caches| == CLASSES && f in m.slabs && g in m.slabs && f != g
    requires !External(m, f) && !External(m, g)
    ensures MetaApart(m.slabs[f], m.slabs[g])
  {
    hide Inv, Books, MapBytes, External;
    PoolsAreApart(m, o);
    Region(m, o, f);
    Region(m, o, g);
    FramesOrdered(f, g);
  }

  /** Where such a slab has its header and map: below the slabs' frames, or at the end of its own. */
  lemma Region(m: Mem, o: Owners, f: nat)
    requires Inv(m, o) && |m.caches| == CLASSES && f in m.slabs && !External(m, f)
    ensures f >= o.base && VA(o.base) <= VA(f)
    ensures var s := m.slabs[f];
      if IsPool(m, f) then s.hdr + SLAB_BYTES <= VA(o.base) && s.cmap + MapBytes(s.count) <= VA(o.base)
      else VA(f) <= s.hdr && s.hdr + SLAB_BYTES <= s.cmap && s.cmap + MapBytes(s.count) <= VA(f) + PAGE_2M
  {
    hide Inv, Books;
    InvPlaced(m, o, f);
    LayoutFacts(m.slabs[f].cls);
    hide MapBytes;
  }

  lemma LiveInSlab(m: Mem, a: nat)
    requires LiveAt(m, a)
    ensures FrameOf(a) in m.slabs
  {
  }

  lemma FramesOrdered(f: nat, g: nat)
    ensures f < g ==> VA(f) + PAGE_2M <= VA(g)
    ensures g < f ==> VA(g) + PAGE_2M <= VA(f)
  {
  }

  lemma MetaBlockSizes(m: Mem, o: Owners, f: nat)
    requires |m.caches| == CLASSES && External(m, f) && MetaOf(m, o, f)
    requires m.slabs[f].count <= PoolCount(m.slabs[f].cls)
    ensures FrameOf(m.slabs[f].hdr) in m.slabs && BlockSize(m, m.slabs[f].hdr) >= SLAB_BYTES
    ensures FrameOf(m.slabs[f].cmap) in m.slabs
    ensures BlockSize(m, m.slabs[f].cmap) >= MapBytes(m.slabs[f].count)
  {
  }

  // ----- runs -----

  /** The allocator together with what its callers hold: blocks and page frames. */
  datatype Sys = Sys(m: Mem, held: set<nat>, user: set<nat>)

  datatype Op = OpKmalloc(size: nat) | OpKfree(a: nat) | OpAllocPage(flags: nat) | OpFreePage(f: nat)

  ghost predicate Sound(s: Sys, base: nat)
  {
    exists meta :: Inv(s.m, Owners(s.held, meta, s.user, base))
  }

  /** What a caller may do: free only what it holds. */
  predicate Legal(s: Sys, op: Op)
  {
    match op
    case OpKfree(a) => a in s.held
    case OpFreePage(f) => f in s.user
    case _ => true
  }

  /** One call. None: the kernel has dereferenced the null page. */
  function Exec(s: Sys, op: Op): (r: Option<Sys>)
    requires |s.m.caches| == CLASSES && |s.m.fr.refs| == s.m.fr.NoPage()
  {
    match op
    case OpKmalloc(size) =>
      (match Kmalloc(s.m, size)
       case Got(m, a) => Some(Sys(m, s.held + {a}, s.user))
       case Null => Some(s)
       case _ => None)
    case OpKfree(a) =>
      (match Kfree(s.m, a)
       case Done(m) => Some(Sys(m, s.held - {a}, s.user))
       case NotFound => Some(s)
       case Wild => None)
    case OpAllocPage(flags) =>
      (match Alloc(s.m.fr, 1, flags)
       case Run(p, fr) => Some(s.(m := s.m.(fr := fr), user := s.user + {p}))
       case _ => Some(s))
    case OpFreePage(f) => Some(s.(m := DropFrame(s.m, f), user := s.user - {f}))
  }

  /** Free frames, slabs and frames in callers' hands. */
  function AllFrames(s: Sys): (r: int) { OwnFrames(s.m) + |s.user| }

  lemma TakenOne(fs: FrameState, flags: nat)
    requires |fs.refs| == fs.NoPage() && Alloc(fs, 1, flags).Run?
    ensures Alloc(fs, 1, flags).state.used == fs.used + 1 && Alloc(fs, 1, flags).state.NoPage() == fs.NoPage()
  {
  }

  lemma GivenOne(fs: FrameState, f: nat)
    requires f < fs.NoPage() == |fs.refs| && fs.NoPage() <= |fs.bits|
    ensures Release(fs, f * PAGE_2M, 1).Freed? && Release(fs, f * PAGE_2M, 1).state.used == fs.used - 1
    ensures Release(fs, f * PAGE_2M, 1).state.NoPage() == fs.NoPage()
  {
  }

  /** Every call on a sound state leaves a sound state, or the kernel ran out of page frames; and no
      frame is lost or invented. */
  lemma ExecSound(s: Sys, op: Op, base: nat)
    requires |s.m.caches| == CLASSES && |s.m.fr.refs| == s.m.fr.NoPage()
    requires Sound(s, base) && Legal(s, op)
    ensures Exec(s, op).None? ==> op.OpKmalloc? && FreeFrames(s.m) < 3
    ensures Exec(s, op).Some? ==>
      var t := Exec(s, op).value;
      && Sound(t, base) && |t.m.caches| == CLASSES && |t.m.fr.refs| == t.m.fr.NoPage()
      && AllFrames(t) == AllFrames(s)
  {
    hide Inv, Kmalloc, Kfree, Alloc, DropFrame, GoesIff, SlabsKept, BlockOf, FramesNeeded;
    var meta :| Inv(s.m, Owners(s.held, meta, s.user, base));
    var o := Owners(s.held, meta, s.user, base);
    var o' := o;
    match op {
    case OpKmalloc(size) =>
      var after := KmallocCorrect(s.m, o, size);
      if size <= MAX_BLOCK { o' := after; }
    case OpKfree(a) => o' := KfreeCorrect(s.m, o, a);
    case OpAllocPage(flags) =>
      if Alloc(s.m.fr, 1, flags).Run? {
        FrameTakenKeepsInv(s.m, o, flags);
        TakenOne(s.m.fr, flags);
        o' := o.(user := o.user + {Alloc(s.m.fr, 1, flags).start});
      }
    case OpFreePage(f) =>
      FrameGivenKeepsInv(s.m, o, f);
      GivenOne(s.m.fr, f);
      o' := o.(user := o.user - {f});
    }
    if Exec(s, op).Some? {
      var t := Exec(s, op).value;
      assert Inv(t.m, Owners(t.held, o'.meta, t.user, base)) by {
        assert o' == Owners(t.held, o'.meta, t.user, base);
      }
      InvCaches(t.m, o');
    }
  }

  /** A run of calls, each legal when it is made, that ends in state t. */
  ghost predicate Reaches(s: Sys, ops: seq<Op>, t: Sys)
    decreases |ops|
  {
    if ops == [] then s == t
    else
      && |s.m.caches| == CLASSES && |s.m.fr.refs| == s.m.fr.NoPage()
      && Legal(s, ops[0]) && Exec(s, ops[0]).Some? && Reaches(Exec(s, ops[0]).value, ops[1..], t)
  }

  /** No two callers share memory: different held blocks are apart, a held block is apart from all
      the allocator's data, it lies in one frame that nobody else has, and it is aligned to its
      size. And the allocator's own headers and colour maps are apart from each other. */
  ghost predicate Safe(s: Sys)
  {
    && (forall a | a in s.held :: FrameOf(a) in s.m.slabs && FrameOf(a) !in s.user && a % BlockSize(s.m, a) == 0)
    && (forall a, b | a in s.held && b in s.held && a != b :: Disjoint(a, BlockSize(s.m, a), b, BlockSize(s.m, b)))
    && (forall a, f | a in s.held && f in s.m.slabs ::
          && Disjoint(a, BlockSize(s.m, a), s.m.slabs[f].hdr, SLAB_BYTES)
          && Disjoint(a, BlockSize(s.m, a), s.m.slabs[f].cmap, MapBytes(s.m.slabs[f].count)))
    && (forall f | f in s.m.slabs :: OwnApart(s.m.slabs[f]))
    && (forall f, g | f in s.m.slabs && g in s.m.slabs && f != g :: MetaApart(s.m.slabs[f], s.m.slabs[g]))
  }

  lemma SoundIsSafe(s: Sys, base: nat)
    requires Sound(s, base)
    ensures Safe(s)
  {
    hide Inv, Books, LiveAt;
    var meta :| Inv(s.m, Owners(s.held, meta, s.user, base));
    var o := Owners(s.held, meta, s.user, base);
    SlabFrames(s.m, o);
    forall a | a in s.held
      ensures FrameOf(a) in s.m.slabs && FrameOf(a) !in s.user && a % BlockSize(s.m, a) == 0
    {
      HeldIsLive(s.m, o, a);
      LiveInSlab(s.m, a);
      LiveBlockPlace(s.m, a);
    }
    forall a, b | a in s.held && b in s.held && a != b
      ensures Disjoint(a, BlockSize(s.m, a), b, BlockSize(s.m, b))
    {
      HeldIsLive(s.m, o, a);
      HeldIsLive(s.m, o, b);
      LiveBlocksApart(s.m, a, b);
    }
    forall a, f | a in s.held && f in s.m.slabs
      ensures Disjoint(a, BlockSize(s.m, a), s.m.slabs[f].hdr, SLAB_BYTES)
      ensures Disjoint(a, BlockSize(s.m, a), s.m.slabs[f].cmap, MapBytes(s.m.slabs[f].count))
    {
      HeldClearOfMetadata(s.m, o, a, f);
    }
    hide BlockSize, Disjoint, MetaApart, OwnApart;
    forall f | f in s.m.slabs ensures OwnApart(s.m.slabs[f]) { OwnMetadataApart(s.m, o, f); }
    forall f, g | f in s.m.slabs && g in s.m.slabs && f != g ensures MetaApart(s.m.slabs[f], s.m.slabs[g]) {
      MetadataApart(s.m, o, f, g);
    }
  }

  /** Every reachable state is safe, and every frame is still free, a slab, or in a caller's hands. */
  lemma {:induction false} ReachableSafe(s: Sys, ops: seq<Op>, t: Sys, base: nat)
    requires Sound(s, base) && Reaches(s, ops, t)
    ensures Sound(t, base) && Safe(t) && AllFrames(t) == AllFrames(s)
    decreases |ops|
  {
    if ops == [] {
      SoundIsSafe(t, base);
    } else {
      ExecSound(s, ops[0], base);
      ReachableSafe(Exec(s, ops[0]).value, ops[1..], t, base);
    }
  }

  /** The alignment lets masks recover what they recover: the 4 KB mask of the page tables keeps
      the address of a table, and the 32 KB mask of get_current takes every address inside a
      kernel stack back to its task. */
  lemma MasksRecover(m: Mem, o: Owners, a: nat, p: nat)
    requires Inv(m, o) && a in o.held
    ensures FrameOf(a) in m.slabs
    ensures BlockSize(m, a) >= 4096 ==> a - a % 4096 == a
    ensures BlockSize(m, a) == 32768 && a <= p < a + 32768 ==> p - p % 32768 == a
  {
    hide Inv, Books, LiveAt, Size;
    HeldIsLive(m, o, a);
    LiveInSlab(m, a);
    LiveBlockPlace(m, a);
    var i := m.slabs[FrameOf(a)].cls;
    if BlockSize(m, a) >= 4096 { PageMultiple(i, a); }
    if BlockSize(m, a) == 32768 && a <= p < a + 32768 { StackMask(a, p); }
  }

  lemma StackMask(a: nat, p: nat)
    requires a % 32768 == 0 && a <= p < a + 32768
    ensures p - p % 32768 == a
  {
  }

  lemma PageMultiple(i: nat, a: nat)
    requires Size(i) >= 4096 && a % Size(i) == 0
    ensures a % 4096 == 0
  {
    var k := Size(i) / 4096;
    assert Size(i) == 4096 * k;
    hide Size;
    var q := a / Size(i);
    assert a == 4096 * (k * q);
    MulDiv(4096, k * q);
  }
}
