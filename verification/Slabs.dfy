/** The slab allocator (Kernel/Mem.c: kmalloc, kfree) as functions of its state.
    Sixteen caches hand out blocks of 32 bytes to 1 MB; every slab is one page frame. */
module Slabs {
  import opened Words
  import opened Frames

  const PAGE_OFFSET: nat := 0xffff_8000_0000_0000
  const CLASSES: nat := 16
  const SLAB_BYTES: nat := 72
  const MAX_BLOCK: nat := 1048576
  const PG_KERNEL: nat := 128

  // ----- size classes -----

  function Size(i: nat): (r: nat)
  {
    match i
    case 0 => 32
    case 1 => 64
    case 2 => 128
    case 3 => 256
    case 4 => 512
    case 5 => 1024
    case 6 => 2048
    case 7 => 4096
    case 8 => 8192
    case 9 => 16384
    case 10 => 32768
    case 11 => 65536
    case 12 => 131072
    case 13 => 262144
    case 14 => 524288
    case _ => 1048576
  }

  /** PAGE_2M_SIZE / size: the blocks that fit a whole frame. */
  function PoolCount(i: nat): (r: nat)
  {
    match i
    case 0 => 65536
    case 1 => 32768
    case 2 => 16384
    case 3 => 8192
    case 4 => 4096
    case 5 => 2048
    case 6 => 1024
    case 7 => 512
    case 8 => 256
    case 9 => 128
    case 10 => 64
    case 11 => 32
    case 12 => 16
    case 13 => 8
    case 14 => 4
    case _ => 2
  }

  lemma SizeFacts(i: nat)
    ensures Size(i) % 8 == 0 && 32 <= Size(i) <= MAX_BLOCK
    ensures Size(i) * PoolCount(i) == PAGE_2M && PAGE_2M / Size(i) == PoolCount(i) && PAGE_2M % Size(i) == 0
    ensures 2 <= PoolCount(i) <= 65536
    ensures Size(i) <= 512 <==> i < 5
  {
  }

  /** The search for the class: the first one whose size is large enough. */
  function ClassFor(size: nat, i: nat): (r: nat)
    requires i < CLASSES && size <= MAX_BLOCK
    ensures r < CLASSES && size <= Size(r)
    ensures i <= r && forall k | i <= k < r :: Size(k) < size
    decreases CLASSES - i
  {
    if size <= Size(i) then i else ClassFor(size, i + 1)
  }

  /** Bytes a slab of a small class leaves for blocks: its header and colour map sit at the end. */
  function InlineBytes(i: nat): (r: nat)
    requires i < 5
  {
    PAGE_2M - SLAB_BYTES - PoolCount(i) / 8
  }

  /** Blocks of a slab added at run time. */
  function NewCount(i: nat): (r: nat)
    requires i < CLASSES
  {
    if i < 5 then InlineBytes(i) / Size(i) else PoolCount(i)
  }

  /** color_length: the bytes of a colour map of count bits, in whole words. */
  function MapBytes(count: nat): (r: nat)
  {
    (count + 63) / 64 * 8
  }

  /** The class that serves the colour map of a slab of class i. */
  function MapClass(i: nat): (r: nat)
    requires i < CLASSES
  {
    SizeFacts(i);
    ClassFor(MapBytes(PoolCount(i)), 0)
  }

  lemma LayoutFacts(i: nat)
    requires i < CLASSES
    ensures 2 <= NewCount(i) <= PoolCount(i)
    ensures i < 5 ==> NewCount(i) * Size(i) <= InlineBytes(i)
                      && InlineBytes(i) + SLAB_BYTES + MapBytes(NewCount(i)) <= PAGE_2M
    ensures ClassFor(SLAB_BYTES, 0) == 2
    ensures i >= 5 ==> MapClass(i) == if i == 5 then 3 else if i == 6 then 2 else if i == 7 then 1 else 0
  {
    SizeFacts(i);
    assert ClassFor(SLAB_BYTES, 0) == 2 by {
      assert Size(1) < SLAB_BYTES <= Size(2);
    }
    match i
    case 0 => case 1 => case 2 => case 3 => case 4 =>
    case 5 => assert Size(2) < MapBytes(PoolCount(5)) <= Size(3);
    case 6 => assert Size(1) < MapBytes(PoolCount(6)) <= Size(2);
    case 7 => assert Size(0) < MapBytes(PoolCount(7)) <= Size(1);
    case 8 => case 9 => case 10 => case 11 => case 12 => case 13 => case 14 => case _ =>
  }

  /** A new slab has as many blocks as fit: a large one fills its frame; a small one leaves room for the
      header and a colour map for the whole frame, and less than a block more. */
  lemma CountIsMost(i: nat)
    requires i < CLASSES
    ensures i >= 5 ==> NewCount(i) * Size(i) == PAGE_2M
    ensures i < 5 ==> var room := PAGE_2M - SLAB_BYTES - MapBytes(PoolCount(i));
      InlineBytes(i) == room && NewCount(i) * Size(i) <= room < NewCount(i) * Size(i) + Size(i)
  {
    hide Size, PoolCount;
    SizeFacts(i);
    if i < 5 {
      WholeMap(i);
      DivideMost(InlineBytes(i), Size(i));
    }
  }

  lemma WholeMap(i: nat)
    requires i < 5
    ensures MapBytes(PoolCount(i)) == PoolCount(i) / 8
  {
  }

  lemma DivideMost(x: nat, n: nat)
    requires n > 0
    ensures x / n * n <= x < x / n * n + n
  {
  }

  // ----- the state -----

  /** One slab: its class, its blocks, its colour map (a set bit is a block in use) in whole words,
      its counters, and the virtual addresses of its header and of its colour map. */
  datatype Slab = Slab(cls: nat, count: nat, colors: seq<bool>, free: int, using: int, hdr: nat, cmap: nat) {
    ghost predicate Ok() {
      && cls < CLASSES && 2 <= count <= PoolCount(cls)
      && |colors| == 8 * MapBytes(count)
      && (forall j | count <= j < |colors| :: colors[j])
      && using == CountSet(colors[..count])
      && free + using == count
    }
  }

  /** One cache: its slabs in list order, the initial one first, and its totals. */
  datatype Cache = Cache(order: seq<nat>, totalFree: int, totalUsing: int)

  /** The page frames, the slabs by the frame they occupy, and the sixteen caches. */
  datatype Mem = Mem(fr: FrameState, slabs: map<nat, Slab>, caches: seq<Cache>)

  /** Vaddress of the slab in frame f. */
  function VA(f: nat): (r: nat) { f * PAGE_2M + PAGE_OFFSET }

  /** address & PAGE_2M_MASK, as a frame number; meaningful for addresses of the direct map. */
  function FrameOf(a: nat): (r: nat)
  {
    if a < PAGE_OFFSET then 0 else (a - PAGE_OFFSET) / PAGE_2M
  }

  /** The block index of address a in the slab of frame f. */
  function Index(s: Slab, f: nat, a: nat): (r: nat)
    requires VA(f) <= a
  {
    SizeFacts(s.cls);
    (a - VA(f)) / Size(s.cls)
  }

  // ----- allocation -----

  /** Null: too large. Fault: no page frame, and the source dereferences the null page.
      Stuck: the slab walk goes round for ever. */
  datatype AllocRes = Null | Fault | Stuck | Got(mem: Mem, addr: nat)

  /** The walk over the slab list, from the k-th slab on. */
  function FirstSlab(m: Mem, order: seq<nat>, k: nat): (r: Option<nat>)
    decreases |order| - k
  {
    if k >= |order| then None
    else if order[k] in m.slabs && m.slabs[order[k]].free != 0 then Some(order[k])
    else FirstSlab(m, order, k + 1)
  }

  /** The first clear bit among the first count bits, from bit j on. */
  function FirstClear(bits: seq<bool>, count: nat, j: nat): (r: Option<nat>)
    ensures r.Some? ==> j <= r.value < count && r.value < |bits| && !bits[r.value]
    decreases count - j
  {
    if j >= count || j >= |bits| then None
    else if !bits[j] then Some(j)
    else FirstClear(bits, count, j + 1)
  }

  /** Block j of a slab is handed out. */
  function Used(s: Slab, j: nat): (r: Slab)
    requires j < |s.colors|
  {
    s.(colors := s.colors[j := true], using := s.using + 1, free := s.free - 1)
  }

  function Take(m: Mem, f: nat, j: nat): (r: Mem)
    requires f in m.slabs && m.slabs[f].cls < |m.caches| && j < |m.slabs[f].colors|
  {
    var s := m.slabs[f];
    var c := m.caches[s.cls];
    Mem(m.fr,
        m.slabs[f := Used(s, j)],
        m.caches[s.cls := c.(totalFree := c.totalFree - 1, totalUsing := c.totalUsing + 1)])
  }

  /** kmalloc when the class has a free block. */
  function Fast(m: Mem, i: nat): (r: AllocRes)
    requires i < CLASSES == |m.caches|
    ensures !r.Null?
  {
    match FirstSlab(m, m.caches[i].order, 0)
    case None => Stuck
    case Some(f) =>
      if f !in m.slabs || m.slabs[f].cls >= CLASSES then Stuck
      else match FirstClear(m.slabs[f].colors, m.slabs[f].count, 0)
        case None => Stuck
        case Some(j) => Got(Take(m, f, j), VA(f) + Size(i) * j)
  }

  /** A fresh colour map: block 0 is taken, and so are the padding bits. */
  function NewMap(count: nat): (r: seq<bool>)
  {
    seq(8 * MapBytes(count), j => j == 0 || j >= count)
  }

  function NewSlab(i: nat, hdr: nat, cmap: nat): (r: Slab)
    requires i < CLASSES
  {
    Slab(i, NewCount(i), NewMap(NewCount(i)), NewCount(i) - 1, 1, hdr, cmap)
  }

  /** Link a slab at the end of its cache's list. */
  function AddSlab(m: Mem, f: nat, s: Slab): (r: Mem)
    requires s.cls < |m.caches|
  {
    var c := m.caches[s.cls];
    Mem(m.fr, m.slabs[f := s],
        m.caches[s.cls := Cache(c.order + [f], c.totalFree + s.free, c.totalUsing + s.using)])
  }

  /** kmalloc for the classes up to 512 bytes, whose slabs hold their own header. */
  function AllocSmall(m: Mem, i: nat): (r: AllocRes)
    requires i < 5 && |m.caches| == CLASSES && |m.fr.refs| == m.fr.NoPage()
    ensures !r.Null?
  {
    if m.caches[i].totalFree != 0 then Fast(m, i)
    else match Alloc(m.fr, 1, PG_KERNEL)
      case Run(p, fr) =>
        var hdr := VA(p) + InlineBytes(i);
        Got(AddSlab(m.(fr := fr), p, NewSlab(i, hdr, hdr + SLAB_BYTES)), VA(p))
      case _ => Fault
  }

  /** kmalloc for a class: above 512 bytes the header and the colour map are blocks themselves. */
  function AllocClass(m: Mem, i: nat): (r: AllocRes)
    requires i < CLASSES == |m.caches| && |m.fr.refs| == m.fr.NoPage()
    ensures !r.Null?
  {
    LayoutFacts(i);
    if i < 5 then AllocSmall(m, i)
    else if m.caches[i].totalFree != 0 then Fast(m, i)
    else match Alloc(m.fr, 1, PG_KERNEL)
      case Run(p, fr) =>
        (match AllocSmall(m.(fr := fr), ClassFor(SLAB_BYTES, 0))
         case Got(m1, hdr) =>
           if |m1.caches| != CLASSES || |m1.fr.refs| != m1.fr.NoPage() then Stuck
           else (match AllocSmall(m1, MapClass(i))
             case Got(m2, cmap) =>
               if |m2.caches| != CLASSES then Stuck
               else Got(AddSlab(m2, p, NewSlab(i, hdr, cmap)), VA(p))
             case Fault => Fault
             case _ => Stuck)
         case Fault => Fault
         case _ => Stuck)
      case _ => Fault
  }

  function Kmalloc(m: Mem, size: nat): (r: AllocRes)
    requires |m.caches| == CLASSES && |m.fr.refs| == m.fr.NoPage()
  {
    if size > MAX_BLOCK then Null else AllocClass(m, ClassFor(size, 0))
  }

  // ----- release -----

  /** NotFound: no slab in that frame. Wild: the block index lies outside the colour map. */
  datatype FreeRes = NotFound | Wild | Done(mem: Mem)

  /** The colour bit is inverted, the counters move as if it had been set. */
  function Flipped(s: Slab, j: nat): (r: Slab)
    requires j < |s.colors|
  {
    s.(colors := s.colors[j := !s.colors[j]], using := s.using - 1, free := s.free + 1)
  }

  function Toggle(m: Mem, f: nat, j: nat): (r: Mem)
    requires f in m.slabs && m.slabs[f].cls < |m.caches| && j < |m.slabs[f].colors|
  {
    var s := m.slabs[f];
    var c := m.caches[s.cls];
    Mem(m.fr,
        m.slabs[f := Flipped(s, j)],
        m.caches[s.cls := c.(totalUsing := c.totalUsing - 1, totalFree := c.totalFree + 1)])
  }

  function Without(order: seq<nat>, f: nat): (r: seq<nat>)
  {
    if order == [] then []
    else
      var n := |order| - 1;
      if order[n] == f then order[..n] else Without(order[..n], f) + [order[n]]
  }

  /** Unlink a slab from its cache. */
  function Detach(m: Mem, f: nat): (r: Mem)
    requires f in m.slabs && m.slabs[f].cls < |m.caches|
  {
    var s := m.slabs[f];
    var c := m.caches[s.cls];
    Mem(m.fr, m.slabs - {f},
        m.caches[s.cls := Cache(Without(c.order, f), c.totalFree - s.count, c.totalUsing)])
  }

  /** The slab just freed into is given back: empty, not the initial one, and enough is left. */
  predicate Surplus(m: Mem, f: nat)
    requires f in m.slabs && m.slabs[f].cls < |m.caches|
  {
    var s := m.slabs[f];
    var c := m.caches[s.cls];
    s.using == 0 && c.totalFree >= s.count * 3 / 2 && (c.order == [] || c.order[0] != f)
  }

  /** free_pages of the slab's frame. */
  function DropFrame(m: Mem, f: nat): (r: Mem)
    ensures r.slabs == m.slabs && r.caches == m.caches
  {
    if f < m.fr.NoPage() == |m.fr.refs| && m.fr.NoPage() <= |m.fr.bits|
    then match Release(m.fr, f * PAGE_2M, 1)
      case Freed(fr) => m.(fr := fr)
      case _ => m
    else m
  }

  /** kfree of a block of a class up to 512 bytes. */
  function FreeSmall(m: Mem, a: nat): (r: FreeRes)
    requires |m.caches| == CLASSES
    ensures r.Done? ==> |r.mem.caches| == CLASSES
  {
    var f := FrameOf(a);
    if a < PAGE_OFFSET || f !in m.slabs || m.slabs[f].cls >= 5 then NotFound
    else
      var j := Index(m.slabs[f], f, a);
      if j >= |m.slabs[f].colors| then Wild
      else
        var m1 := Toggle(m, f, j);
        if Surplus(m1, f) then Done(DropFrame(Detach(m1, f), f)) else Done(m1)
  }

  /** The memory after a call of kfree. */
  function Left(m: Mem, r: FreeRes): (m': Mem)
    requires |m.caches| == CLASSES && (r.Done? ==> |r.mem.caches| == CLASSES)
    ensures |m'.caches| == CLASSES
  {
    if r.Done? then r.mem else m
  }

  /** The colour map, the frame and the header of an unlinked large slab go back, in this order; a
      kfree that finds no slab changes nothing. */
  function FreeParts(m: Mem, f: nat, cmap: nat, hdr: nat): (r: FreeRes)
    requires |m.caches| == CLASSES
  {
    if FreeSmall(m, cmap).Wild? then Wild
    else
      var m1 := DropFrame(Left(m, FreeSmall(m, cmap)), f);
      if FreeSmall(m1, hdr).Wild? then Wild else Done(Left(m1, FreeSmall(m1, hdr)))
  }

  function Kfree(m: Mem, a: nat): (r: FreeRes)
    requires |m.caches| == CLASSES
  {
    var f := FrameOf(a);
    if a < PAGE_OFFSET || f !in m.slabs || m.slabs[f].cls >= CLASSES then NotFound
    else if m.slabs[f].cls < 5 then FreeSmall(m, a)
    else
      var j := Index(m.slabs[f], f, a);
      if j >= |m.slabs[f].colors| then Wild
      else
        var m1 := Toggle(m, f, j);
        if Surplus(m1, f) then FreeParts(Detach(m1, f), f, m.slabs[f].cmap, m.slabs[f].hdr) else Done(m1)
  }
}
