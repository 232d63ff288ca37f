/** Boot (Kernel/Mem.c: Init_Mem, kernel_slab_init): which frames the kernel's own structures get,
    and the sixteen initial slabs. */
module SlabBoot {
  import opened Words
  import opened Frames
  import opened Slabs
  import opened SlabBooks
  import opened SlabOwnership
  import opened SlabSteps

  const PAGE_STRUCT_BYTES: nat := 24

  /** PAGE_2M_ALIGN(addr - PAGE_OFFSET) >> PAGE_2M_SHIFT: frames below the address, rounded up. */
  function FramesBelow(addr: nat): (r: nat)
    requires addr >= PAGE_OFFSET
  {
    (addr - PAGE_OFFSET + PAGE_2M - 1) / PAGE_2M
  }

  /** PAGE_4K_ALIGN */
  function Align4K(a: nat): (r: nat) { (a + 4095) / 4096 * 4096 }

  /** bits_length: the bits for n frames, in whole words. */
  function WholeBits(n: nat): (r: nat)
    ensures n <= r < n + 64 && r % 64 == 0
  {
    (n + 63) / 64 * 64
  }

  /** Init_Mem: all frames free except the first `reserved` ones, which end where the Page array
      begins. */
  function InitMem(noPage: nat, guard: Word, reserved: nat, flags: nat): (r: FrameState)
    requires reserved <= noPage
  {
    FrameState(seq(WholeBits(noPage), k => k < reserved || k >= noPage) + guard,
               reserved,
               seq(noPage, k => if k < reserved then flags else 0),
               seq(noPage, k => if k < reserved then 1 else 0))
  }

  /** struct_end after the colour maps of the first i initial slabs were placed from e on; it is
      also where map i goes. */
  function MapPlace(e: nat, i: nat): (r: nat)
    ensures r >= e
  {
    if i == 0 then e else (MapPlace(e, i - 1) + MapBytes(PoolCount(i - 1)) + 80) / 8 * 8
  }

  function PoolMap(count: nat): (r: seq<bool>)
  {
    seq(8 * MapBytes(count), j => j >= count)
  }

  function PoolSlab(i: nat, hdr: nat, cmap: nat): (r: Slab)
  {
    Slab(i, PoolCount(i), PoolMap(PoolCount(i)), PoolCount(i), 0, hdr, cmap)
  }

  /** The initial slab in frame f, when the sixteen frames start at p. */
  function PoolIn(p: nat, e: nat, heads: seq<nat>, f: nat): (r: Slab)
    requires |heads| == CLASSES && p <= f < p + 16
  {
    PoolSlab(f - p, heads[f - p], MapPlace(e, f - p))
  }

  function PoolCache(p: nat, i: nat): (r: Cache) { Cache([p + i], PoolCount(i), 0) }

  function PoolState(fr: FrameState, p: nat, e: nat, heads: seq<nat>): (r: Mem)
    requires |heads| == CLASSES
  {
    Mem(fr, map f: nat | p <= f < p + 16 :: PoolIn(p, e, heads, f),
        seq(CLASSES, i requires 0 <= i < CLASSES => PoolCache(p, i)))
  }

  /** kernel_slab_init from struct_end e on; None when there are no sixteen free frames in a row. */
  function SlabInit(fr: FrameState, e: nat, heads: seq<nat>, flags: nat): (r: Option<Mem>)
    requires |heads| == CLASSES && e >= PAGE_OFFSET && |fr.refs| == fr.NoPage()
  {
    var first, last := FramesBelow(e), FramesBelow(MapPlace(e, 16));
    match Alloc(TakeRun(fr, first, last - first, flags), 16, flags)
    case Run(p, fr2) => Some(PoolState(fr2, p, e, heads))
    case _ => None
  }

  // ----- frames -----

  lemma {:induction false} CountBelow(n: nat, r: nat)
    requires r <= n
    ensures CountSet(seq(n, k => k < r)) == r
  {
    if n > 0 {
      assert seq(n, k => k < r)[..n - 1] == seq(n - 1, k => k < r);
      if r == n {
        assert seq(n - 1, k => k < r) == seq(n - 1, k => k < n - 1);
        CountBelow(n - 1, n - 1);
      } else {
        CountBelow(n - 1, r);
      }
    }
  }

  lemma InitMemConsistent(noPage: nat, guard: Word, reserved: nat, flags: nat)
    requires reserved <= noPage
    ensures var fr := InitMem(noPage, guard, reserved, flags);
      fr.Consistent() && fr.NoPage() == noPage && (forall k: nat :: fr.Allocated(k) <==> k < reserved)
      && (forall k: nat :: fr.Free(k) <==> reserved <= k < noPage)
      && (forall k | 0 <= k < reserved :: fr.attr[k] == flags)
  {
    hide WholeBits;
    var fr := InitMem(noPage, guard, reserved, flags);
    CountBelow(noPage, reserved);
    assert fr.bits[..noPage] == seq(noPage, k => k < reserved);
  }

  /** Marking free frames as taken is what alloc_pages would have done. */
  lemma MarkKeepsConsistent(fr: FrameState, s: nat, n: nat, flags: nat)
    requires fr.Consistent() && s + n <= fr.NoPage()
    requires forall k: nat | s <= k < s + n :: fr.Free(k)
    ensures TakeRun(fr, s, n, flags).Consistent()
    ensures forall k: nat :: TakeRun(fr, s, n, flags).Allocated(k) <==> fr.Allocated(k) || s <= k < s + n
  {
    var t := TakeRun(fr, s, n, flags);
    forall k | s <= k < s + n ensures !fr.bits[k] && t.bits[k] { assert fr.Free(k); }
    CountRun(fr.bits[..fr.NoPage()], t.bits[..fr.NoPage()], s, n);
  }

  // ----- the initial slabs -----

  lemma PoolSlabOk(i: nat, hdr: nat, cmap: nat)
    requires i < CLASSES
    ensures PoolSlab(i, hdr, cmap).Ok()
    ensures forall off: nat :: !LiveIn(PoolSlab(i, hdr, cmap), off)
  {
    SizeFacts(i);
    CountZeros(PoolCount(i));
    assert PoolMap(PoolCount(i))[..PoolCount(i)] == seq(PoolCount(i), _ => false);
  }

  lemma PoolAt(fr: FrameState, p: nat, e: nat, heads: seq<nat>, i: nat)
    requires |heads| == CLASSES && i < CLASSES
    ensures var m := PoolState(fr, p, e, heads);
      && |m.caches| == CLASSES && m.caches[i] == PoolCache(p, i)
      && p + i in m.slabs && m.slabs[p + i] == PoolSlab(i, heads[i], MapPlace(e, i))
      && IsPool(m, p + i)
  {
  }

  lemma PoolBooks(fr: FrameState, p: nat, e: nat, heads: seq<nat>)
    requires |heads| == CLASSES && fr.Consistent()
    requires forall k: nat | p <= k < p + 16 :: fr.Allocated(k)
    ensures Books(PoolState(fr, p, e, heads))
  {
    var m := PoolState(fr, p, e, heads);
    forall f | f in m.slabs ensures m.slabs[f].Ok() && fr.Allocated(f) {
      PoolSlabOk(f - p, heads[f - p], MapPlace(e, f - p));
    }
    forall i | 0 <= i < CLASSES ensures Listed(m, i) && Totals(m, i) {
      PoolListed(fr, p, e, heads, i);
    }
  }

  lemma PoolListed(fr: FrameState, p: nat, e: nat, heads: seq<nat>, i: nat)
    requires |heads| == CLASSES && i < CLASSES
    ensures |PoolState(fr, p, e, heads).caches| == CLASSES
    ensures Listed(PoolState(fr, p, e, heads), i) && Totals(PoolState(fr, p, e, heads), i)
  {
  }

  lemma {:induction false} MapPlaceUp(e: nat, i: nat, j: nat)
    requires i <= j
    ensures MapPlace(e, i) <= MapPlace(e, j)
    decreases j
  {
    if i < j { MapPlaceUp(e, i, j - 1); }
  }

  lemma MapInside(e: nat, i: nat)
    requires i < CLASSES && e >= PAGE_OFFSET
    ensures MapPlace(e, i) + MapBytes(PoolCount(i)) <= MapPlace(e, 16) <= VA(FramesBelow(MapPlace(e, 16)))
  {
    MapPlaceUp(e, i + 1, 16);
  }

  /** The colour maps follow each other; from an aligned address on with 80 bytes between two. */
  lemma {:induction false} MapsFollow(e: nat, i: nat)
    ensures MapPlace(e, i) + MapBytes(PoolCount(i)) <= MapPlace(e, i + 1)
    ensures e % 8 == 0 ==> MapPlace(e, i) % 8 == 0 && MapPlace(e, i + 1) == MapPlace(e, i) + MapBytes(PoolCount(i)) + 80
    decreases i
  {
    hide PoolCount, MapBytes;
    if i > 0 { MapsFollow(e, i - 1); }
    WholeWords(PoolCount(i));
    NextPlace(MapPlace(e, i), MapBytes(PoolCount(i)));
  }

  lemma WholeWords(count: nat)
    ensures MapBytes(count) % 8 == 0
  {
  }

  lemma NextPlace(x: nat, n: nat)
    requires n % 8 == 0
    ensures x + n <= (x + n + 80) / 8 * 8
    ensures x % 8 == 0 ==> (x + n + 80) / 8 * 8 == x + n + 80
  {
  }

  /** The sixteen headers, in the array of caches, do not overlap. */
  predicate HeadsApart(heads: seq<nat>)
  {
    forall i, j | 0 <= i < j < |heads| :: Disjoint(heads[i], SLAB_BYTES, heads[j], SLAB_BYTES)
  }

  lemma MapsApart(e: nat, i: nat, j: nat)
    requires i < j
    ensures MapPlace(e, i) + MapBytes(PoolCount(i)) <= MapPlace(e, j)
  {
    MapsFollow(e, i);
    MapPlaceUp(e, i + 1, j);
  }

  lemma PoolsOfBoot(fr: FrameState, p: nat, e: nat, heads: seq<nat>)
    requires |heads| == CLASSES && HeadsApart(heads) && forall h | h in heads :: h + SLAB_BYTES <= e
    ensures |PoolState(fr, p, e, heads).caches| == CLASSES && PoolsApart(PoolState(fr, p, e, heads))
  {
    hide PoolState, MetaApart, OwnApart, HeadsApart;
    PoolAt(fr, p, e, heads, 0);
    var m := PoolState(fr, p, e, heads);
    forall f: nat | IsPool(m, f) ensures OwnApart(m.slabs[f]) {
      PoolFrame(fr, p, e, heads, f);
      PoolOwnApart(fr, p, e, heads, f - p);
    }
    forall f: nat, g: nat | IsPool(m, f) && IsPool(m, g) && f != g ensures MetaApart(m.slabs[f], m.slabs[g]) {
      PoolFrame(fr, p, e, heads, f);
      PoolFrame(fr, p, e, heads, g);
      if f < g { PoolMetaApart(fr, p, e, heads, f - p, g - p); } else { PoolMetaApart(fr, p, e, heads, g - p, f - p); }
    }
  }

  lemma PoolFrame(fr: FrameState, p: nat, e: nat, heads: seq<nat>, f: nat)
    requires |heads| == CLASSES && f in PoolState(fr, p, e, heads).slabs
    ensures p <= f < p + 16
  {
  }

  lemma PoolOwnApart(fr: FrameState, p: nat, e: nat, heads: seq<nat>, i: nat)
    requires |heads| == CLASSES && i < CLASSES && forall h | h in heads :: h + SLAB_BYTES <= e
    ensures var m := PoolState(fr, p, e, heads); p + i in m.slabs && OwnApart(m.slabs[p + i])
  {
    hide MapPlace, PoolState, MapBytes;
    PoolAt(fr, p, e, heads, i);
    assert heads[i] in heads;
  }

  lemma PoolMetaApart(fr: FrameState, p: nat, e: nat, heads: seq<nat>, i: nat, j: nat)
    requires |heads| == CLASSES && i < j < CLASSES && HeadsApart(heads) && forall h | h in heads :: h + SLAB_BYTES <= e
    ensures var m := PoolState(fr, p, e, heads);
      && p + i in m.slabs && p + j in m.slabs
      && MetaApart(m.slabs[p + i], m.slabs[p + j]) && MetaApart(m.slabs[p + j], m.slabs[p + i])
  {
    hide MapPlace, PoolState, MapBytes, PoolCount;
    PoolAt(fr, p, e, heads, i);
    PoolAt(fr, p, e, heads, j);
    assert heads[i] in heads && heads[j] in heads;
    MapsApart(e, i, j);
  }

  lemma PoolPlaced(fr: FrameState, p: nat, e: nat, heads: seq<nat>)
    requires |heads| == CLASSES && e >= PAGE_OFFSET
    requires forall h | h in heads :: PAGE_OFFSET <= h && h + SLAB_BYTES <= e
    ensures AllPlaced(PoolState(fr, p, e, heads), FramesBelow(MapPlace(e, 16)))
  {
    var m := PoolState(fr, p, e, heads);
    var base := FramesBelow(MapPlace(e, 16));
    forall f | f in m.slabs ensures m.slabs[f].cls < CLASSES && Placed(m, f, base) {
      PoolIsPlaced(fr, p, e, heads, f - p);
    }
  }

  lemma PoolIsPlaced(fr: FrameState, p: nat, e: nat, heads: seq<nat>, i: nat)
    requires |heads| == CLASSES && e >= PAGE_OFFSET && i < CLASSES
    requires forall h | h in heads :: PAGE_OFFSET <= h && h + SLAB_BYTES <= e
    ensures var m := PoolState(fr, p, e, heads);
      && |m.caches| == CLASSES && p + i in m.slabs && m.slabs[p + i].cls < CLASSES
      && Placed(m, p + i, FramesBelow(MapPlace(e, 16)))
  {
    PoolAt(fr, p, e, heads, i);
    MapInside(e, i);
    assert heads[i] in heads;
    hide MapPlace, PoolCount, MapBytes, FramesBelow, PoolState, IsPool;
    MapWhole(e);
  }

  lemma MapWhole(e: nat)
    requires e >= PAGE_OFFSET
    ensures e <= VA(FramesBelow(MapPlace(e, 16)))
  {
  }

  lemma PoolOwners(fr: FrameState, p: nat, e: nat, heads: seq<nat>, o: Owners)
    requires |heads| == CLASSES && o.held == {} && o.meta == map[]
    ensures var m := PoolState(fr, p, e, heads); |m.caches| == CLASSES && Meta(m, o) && Blocks(m, o)
  {
    var m := PoolState(fr, p, e, heads);
    forall f: nat ensures !External(m, f) {
      if f in m.slabs { PoolAt(fr, p, e, heads, f - p); }
    }
    forall a: nat ensures !LiveAt(m, a) {
      if a >= PAGE_OFFSET && FrameOf(a) in m.slabs {
        var i := FrameOf(a) - p;
        PoolAt(fr, p, e, heads, i);
        PoolSlabOk(i, heads[i], MapPlace(e, i));
      }
    }
  }

  /** Boot is sound exactly when the Page array does not reach into a frame beyond the one it
      starts in: Init_Mem reserves the frames below the array's start s, kernel_slab_init goes on
      from the frames below its end, and what lies between is reserved by neither. */
  lemma BootSoundIff(noPage: nat, guard: Word, s: nat, heads: seq<nat>, flags: nat)
    requires |heads| == CLASSES && HeadsApart(heads) && s >= PAGE_OFFSET
    requires forall h | h in heads :: PAGE_OFFSET <= h && h + SLAB_BYTES <= s
    requires var e := Align4K(s + noPage * PAGE_STRUCT_BYTES);
      FramesBelow(MapPlace(e, 16)) <= noPage && FramesBelow(s) <= noPage
    ensures var e := Align4K(s + noPage * PAGE_STRUCT_BYTES);
      var r := SlabInit(InitMem(noPage, guard, FramesBelow(s), flags), e, heads, flags);
      r.Some? ==>
        (Inv(r.value, Owners({}, map[], {}, FramesBelow(MapPlace(e, 16)))) <==> FramesBelow(s) == FramesBelow(e))
  {
    var e := Align4K(s + noPage * PAGE_STRUCT_BYTES);
    BootSoundAt(noPage, guard, s, e, heads, flags);
  }

  lemma BelowUp(a: nat, b: nat)
    requires PAGE_OFFSET <= a <= b
    ensures FramesBelow(a) <= FramesBelow(b)
  {
  }

  lemma BootSoundAt(noPage: nat, guard: Word, s: nat, e: nat, heads: seq<nat>, flags: nat)
    requires |heads| == CLASSES && HeadsApart(heads) && PAGE_OFFSET <= s <= e
    requires forall h | h in heads :: PAGE_OFFSET <= h && h + SLAB_BYTES <= s
    requires FramesBelow(MapPlace(e, 16)) <= noPage && FramesBelow(s) <= noPage
    ensures var r := SlabInit(InitMem(noPage, guard, FramesBelow(s), flags), e, heads, flags);
      r.Some? ==>
        (Inv(r.value, Owners({}, map[], {}, FramesBelow(MapPlace(e, 16)))) <==> FramesBelow(s) == FramesBelow(e))
  {
    hide Inv, Alloc, InitMem, MapPlace, RunFree, FramesBelow, TakeRun, HeadsApart;
    BelowUp(s, e);
    BelowUp(e, MapPlace(e, 16));
    var fr := InitMem(noPage, guard, FramesBelow(s), flags);
    var first, last := FramesBelow(e), FramesBelow(MapPlace(e, 16));
    InitMemConsistent(noPage, guard, FramesBelow(s), flags);
    MarkKeepsConsistent(fr, first, last - first, flags);
    var fr1 := TakeRun(fr, first, last - first, flags);
    AllocCorrect(fr1, 16, flags);
    if Alloc(fr1, 16, flags).Run? {
      var p, fr2 := Alloc(fr1, 16, flags).start, Alloc(fr1, 16, flags).state;
      var o := Owners({}, map[], {}, last);
      var m := PoolState(fr2, p, e, heads);
      if FramesBelow(s) == first {
        BootGood(fr1, fr2, p, e, heads, o);
      } else {
        TakenOutside(fr, first, last - first, flags, FramesBelow(s));
        BootBad(m, o, fr1, p, FramesBelow(s));
      }
    }
  }

  /** kernel_slab_init finds its sixteen frames whenever so many are left behind the kernel's own
      structures, whatever word follows the bitmap. */
  lemma BootHasFrames(noPage: nat, guard: Word, reserved: nat, e: nat, heads: seq<nat>, flags: nat)
    requires |heads| == CLASSES && e >= PAGE_OFFSET
    requires reserved <= FramesBelow(e) && FramesBelow(MapPlace(e, 16)) + 16 <= noPage
    ensures SlabInit(InitMem(noPage, guard, reserved, flags), e, heads, flags).Some?
  {
    hide InitMem, MapPlace, FramesBelow;
    BelowUp(e, MapPlace(e, 16));
    var fr := InitMem(noPage, guard, reserved, flags);
    var first, last := FramesBelow(e), FramesBelow(MapPlace(e, 16));
    InitMemConsistent(noPage, guard, reserved, flags);
    MarkedRunFree(fr, first, last, flags);
    FindRunIsFirstFit(TakeRun(fr, first, last - first, flags).bits, 16, 0);
    hide FindRun, TakeRun, RunFree;
  }

  lemma MarkedRunFree(fr: FrameState, first: nat, last: nat, flags: nat)
    requires fr.Consistent() && first <= last && last + 16 <= fr.NoPage()
    requires forall k: nat | last <= k < fr.NoPage() :: fr.Free(k)
    ensures var t := TakeRun(fr, first, last - first, flags);
      RunFree(t.bits, last, 16) && last < |t.bits| - 64 && t.NoPage() == fr.NoPage()
  {
    var t := TakeRun(fr, first, last - first, flags);
    forall k: nat | last <= k < last + 16 ensures !t.bits[k] { assert fr.Free(k); }
  }

  /** A machine with a hundred frames whose Page array starts at a frame's end: kernel_slab_init
      succeeds, and the allocator starts from a state that violates its invariant. */
  lemma BootUnsound(guard: Word, heads: seq<nat>, flags: nat)
    requires |heads| == CLASSES && HeadsApart(heads)
    requires forall h | h in heads :: PAGE_OFFSET <= h && h + SLAB_BYTES <= PAGE_OFFSET + PAGE_2M
    ensures var s := PAGE_OFFSET + PAGE_2M; var e := Align4K(s + 100 * PAGE_STRUCT_BYTES);
      var r := SlabInit(InitMem(100, guard, FramesBelow(s), flags), e, heads, flags);
      FramesBelow(s) == 1 && FramesBelow(e) == 2 && FramesBelow(MapPlace(e, 16)) == 2
      && r.Some? && !Inv(r.value, Owners({}, map[], {}, 2))
  {
    var s := PAGE_OFFSET + PAGE_2M;
    var e := Align4K(s + 100 * PAGE_STRUCT_BYTES);
    assert e == s + 4096;
    MapRoom(e, 16);
    hide MapPlace, Inv, SlabInit, InitMem;
    BootHasFrames(100, guard, FramesBelow(s), e, heads, flags);
    BootSoundIff(100, guard, s, heads, flags);
  }

  /** Each colour map takes less than 9 KB. */
  lemma {:induction false} MapRoom(e: nat, i: nat)
    ensures e <= MapPlace(e, i) <= e + 9000 * i
    decreases i
  {
    if i > 0 { MapRoom(e, i - 1); }
  }

  lemma TakenOutside(fs: FrameState, s: nat, n: nat, flags: nat, g: nat)
    requires |fs.refs| == fs.NoPage() && g < |fs.bits| && g < s
    ensures var r := TakeRun(fs, s, n, flags); |r.bits| == |fs.bits| && r.NoPage() == fs.NoPage() && r.bits[g] == fs.bits[g]
  {
  }

  lemma BootGood(fr1: FrameState, fr2: FrameState, p: nat, e: nat, heads: seq<nat>, o: Owners)
    requires |heads| == CLASSES && HeadsApart(heads) && e >= PAGE_OFFSET && o == Owners({}, map[], {}, FramesBelow(MapPlace(e, 16)))
    requires forall h | h in heads :: PAGE_OFFSET <= h && h + SLAB_BYTES <= e
    requires fr1.Consistent() && fr2.Consistent() && fr2.NoPage() == fr1.NoPage() && |fr1.bits| == |fr2.bits|
    requires forall k: nat :: fr1.Allocated(k) <==> k < o.base
    requires p + 16 <= fr1.NoPage() && RunFree(fr1.bits, p, 16)
    requires forall k | 0 <= k < |fr1.bits| :: fr2.bits[k] == (fr1.bits[k] || p <= k < p + 16)
    ensures Inv(PoolState(fr2, p, e, heads), o)
  {
    var m := PoolState(fr2, p, e, heads);
    assert forall k: nat :: fr2.Allocated(k) <==> fr1.Allocated(k) || p <= k < p + 16;
    assert o.base <= p by { assert !fr1.Allocated(p); }
    PoolBooks(fr2, p, e, heads);
    PoolPlaced(fr2, p, e, heads);
    PoolOwners(fr2, p, e, heads, o);
    PoolsOfBoot(fr2, p, e, heads);
    hide Books, Placed, Meta, Blocks, AllPlaced, PoolsApart;
    InvParts(m, o);
  }

  /** The unreserved frame g is either free although the kernel's structures lie in it, or one of
      the initial slabs. */
  lemma BootBad(m: Mem, o: Owners, fr1: FrameState, p: nat, g: nat)
    requires g < o.base && g < fr1.NoPage() <= |fr1.bits| && !fr1.Allocated(g)
    requires |m.fr.bits| == |fr1.bits| && m.fr.NoPage() == fr1.NoPage()
    requires forall k | 0 <= k < |fr1.bits| :: m.fr.bits[k] == (fr1.bits[k] || p <= k < p + 16)
    requires forall k: nat | p <= k < p + 16 :: k in m.slabs
    ensures !Inv(m, o)
  {
    if p <= g < p + 16 {
      assert g in m.slabs;
    } else {
      assert !m.fr.Allocated(g);
    }
  }
}
