/** kmalloc and kfree as the kernel runs them: the class search, the slab walk, the word-skipping
    colour scan, and the recursive calls for headers and colour maps. Each method computes the
    function of the same name. */
module SlabAllocator {
  import opened Words
  import opened Frames
  import opened Slabs
  import opened SlabBooks
  import opened SlabOwnership
  import opened SlabSteps
  import opened SlabCalls

  /** A slab header as it lies in memory, with its colour map in words. */
  datatype Header = Header(cls: nat, count: nat, words: seq<Word>, free: int, using: int, hdr: nat, cmap: nat) {
    function Value(): Slab { Slab(cls, count, Bits(words), free, using, hdr, cmap) }
  }

  function SlabsOf(hs: map<nat, Header>): (r: map<nat, Slab>)
    ensures r.Keys == hs.Keys
    ensures forall f | f in hs :: r[f] == hs[f].Value()
  {
    map f | f in hs :: hs[f].Value()
  }

  lemma SlabsOfUpdate(hs: map<nat, Header>, f: nat, h: Header)
    ensures SlabsOf(hs[f := h]) == SlabsOf(hs)[f := h.Value()]
  {
  }

  lemma SlabsOfRemove(hs: map<nat, Header>, f: nat)
    ensures SlabsOf(hs - {f}) == SlabsOf(hs) - {f}
  {
  }

  lemma WordsCover(m: Mem, hs: map<nat, Header>, f: nat)
    requires Books(m) && m.slabs == SlabsOf(hs) && f in hs
    ensures hs[f].cls < CLASSES && hs[f].count <= 64 * |hs[f].words|
  {
    assert m.slabs[f].Ok();
  }

  /** The colour scan: it jumps a whole word ahead when it meets one with all bits set. */
  method Scan(words: seq<Word>, count: nat) returns (r: Option<nat>)
    requires count <= 64 * |words|
    ensures r == FirstClear(Bits(words), count, 0)
  {
    var j := 0;
    while j < count
      invariant j % 64 != 0 ==> j / 64 < |words| && words[j / 64] != ONES
      invariant FirstClear(Bits(words), count, 0) == FirstClear(Bits(words), count, j)
      decreases count - j
    {
      if words[j / 64] == ONES {
        SkipWord(words, count, j);
        j := j + 64;
      } else {
        if !words[j / 64][j % 64] {
          return Some(j);
        }
        j := j + 1;
      }
    }
    r := None;
  }

  /** Skipping a full word skips no clear bit, as the scan is at the start of that word. */
  lemma SkipWord(words: seq<Word>, count: nat, j: nat)
    requires j < count <= 64 * |words| && j % 64 == 0 && words[j / 64] == ONES
    ensures FirstClear(Bits(words), count, j) == FirstClear(Bits(words), count, j + 64)
  {
    SkipSet(Bits(words), count, j, 64);
  }

  lemma {:induction false} SkipSet(bits: seq<bool>, count: nat, j: nat, n: nat)
    requires count <= |bits| && forall k | j <= k < j + n && k < |bits| :: bits[k]
    ensures FirstClear(bits, count, j) == FirstClear(bits, count, j + n)
    decreases n
  {
    if n > 0 { SkipSet(bits, count, j + 1, n - 1); }
  }

  /** All ones first, then the bits of the blocks from `first` up are flipped. */
  method FreshMap(count: nat, first: nat) returns (words: seq<Word>)
    requires first <= count
    ensures |words| == (count + 63) / 64
    ensures forall k | 0 <= k < 64 * |words| :: Bits(words)[k] == (k < first || k >= count)
  {
    words := seq((count + 63) / 64, _ => ONES);
    var j := first;
    while j < count
      invariant first <= j <= count && |words| == (count + 63) / 64
      invariant forall k | 0 <= k < 64 * |words| :: Bits(words)[k] == (k < first || k >= j)
    {
      BitsUpdate(words, j, !words[j / 64][j % 64]);
      words := words[j / 64 := words[j / 64][j % 64 := !words[j / 64][j % 64]]];
      j := j + 1;
    }
  }

  lemma FreshIsNew(words: seq<Word>, n: nat)
    requires 1 <= n && |words| == (n + 63) / 64
    requires forall k | 0 <= k < 64 * |words| :: Bits(words)[k] == (k < 1 || k >= n)
    ensures Bits(words) == NewMap(n)
  {
    NewMapFacts(n);
  }

  /** The search over the sixteen classes. */
  method FindClass(size: nat) returns (i: nat)
    requires size <= MAX_BLOCK
    ensures i == ClassFor(size, 0)
  {
    i := 0;
    while Size(i) < size
      invariant i < CLASSES && ClassFor(size, 0) == ClassFor(size, i)
      decreases CLASSES - i
    {
      i := i + 1;
    }
  }

  datatype Outcome = NullPointer | Crash | Block(addr: nat)

  /** The frame address of a is that of frame f exactly when a lies in frame f. */
  lemma PageBase(a: nat, f: nat)
    ensures a - a % PAGE_2M == VA(f) <==> a >= PAGE_OFFSET && FrameOf(a) == f
    ensures a - a % PAGE_2M == VA(f) ==> (a - a % PAGE_2M - PAGE_OFFSET) / PAGE_2M == f
  {
  }

  /** What kfree itself relies on: each list has exactly the slabs of its class, the frames of slabs
      exist, and header and colour map of a large slab are in no slab, or in one of a small class. */
  ghost predicate Searchable(m: Mem)
  {
    && |m.caches| == CLASSES && m.fr.WellFormed()
    && (forall f | f in m.slabs :: m.slabs[f].cls < CLASSES && f < m.fr.NoPage())
    && (forall i | 0 <= i < CLASSES :: Listed(m, i))
    && (forall f | f in m.slabs && m.slabs[f].cls >= 5 :: NotLarge(m, m.slabs[f].cmap) && NotLarge(m, m.slabs[f].hdr))
  }

  predicate NotLarge(m: Mem, a: nat)
  {
    a < PAGE_OFFSET || FrameOf(a) !in m.slabs || m.slabs[FrameOf(a)].cls < 5
  }

  lemma InvSearchable(m: Mem, o: Owners)
    requires Inv(m, o)
    ensures Searchable(m)
  {
    hide Blocks;
    forall f | f in m.slabs && m.slabs[f].cls >= 5 ensures NotLarge(m, m.slabs[f].cmap) && NotLarge(m, m.slabs[f].hdr) {
      if External(m, f) {
        assert MetaOf(m, o, f);
        LayoutFacts(m.slabs[f].cls);
      } else {
        assert Placed(m, f, o.base);
      }
    }
  }

  lemma ToggleSearchable(m: Mem, f: nat, j: nat)
    requires Searchable(m) && f in m.slabs && j < |m.slabs[f].colors|
    ensures Searchable(Toggle(m, f, j))
  {
    var m' := Toggle(m, f, j);
    forall i | 0 <= i < CLASSES ensures Listed(m', i) { assert Listed(m, i); }
  }

  lemma DetachSearchable(m: Mem, f: nat)
    requires Searchable(m) && f in m.slabs && Surplus(m, f)
    ensures Searchable(Detach(m, f))
  {
    var m' := Detach(m, f);
    forall i | 0 <= i < CLASSES ensures Listed(m', i) {
      assert Listed(m, i);
      if i == m.slabs[f].cls { WithoutFacts(m.caches[i].order, f); }
    }
  }

  lemma DropSearchable(m: Mem, f: nat)
    requires Searchable(m)
    ensures Searchable(DropFrame(m, f)) && DropFrame(m, f).fr.NoPage() == m.fr.NoPage()
  {
    var m' := DropFrame(m, f);
    forall i | 0 <= i < CLASSES ensures Listed(m', i) { assert Listed(m, i); }
  }

  lemma ClassList(m: Mem, i: nat)
    requires Searchable(m) && i < CLASSES
    ensures forall f :: f in m.caches[i].order <==> f in m.slabs && m.slabs[f].cls == i
  {
    assert Listed(m, i);
  }

  lemma ClassOf(m: Mem, f: nat)
    requires Searchable(m) && f in m.slabs
    ensures |m.caches| == CLASSES && m.slabs[f].cls < CLASSES && f < m.fr.NoPage()
  {
  }

  lemma InFrame(a: nat)
    requires a >= PAGE_OFFSET
    ensures VA(FrameOf(a)) <= a
  {
  }

  /** kfree of such an address is the simple one. */
  lemma SmallAlone(m: Mem, a: nat)
    requires Searchable(m) && NotLarge(m, a)
    ensures |m.caches| == CLASSES && Slabs.Kfree(m, a) == FreeSmall(m, a)
  {
    hide FreeParts, DropFrame, Surplus, Toggle, Detach, Listed;
  }

  lemma DetachedParts(m: Mem, f: nat)
    requires Searchable(m) && f in m.slabs && m.slabs[f].cls >= 5
    ensures |Detach(m, f).caches| == CLASSES && Detach(m, f).fr.NoPage() == m.fr.NoPage()
    ensures NotLarge(Detach(m, f), m.slabs[f].cmap) && NotLarge(Detach(m, f), m.slabs[f].hdr)
  {
  }

  /** Freeing one address brings no slab. */
  lemma StaysSmall(m: Mem, a: nat, b: nat)
    requires Searchable(m) && NotLarge(m, b)
    ensures |m.caches| == CLASSES
    ensures var r := FreeSmall(m, a); r.Done? ==> NotLarge(r.mem, b)
  {
    hide DropFrame, Surplus, Listed;
    var r := FreeSmall(m, a);
    if r.Done? {
      assert forall g | g in r.mem.slabs :: g in m.slabs && r.mem.slabs[g].cls == m.slabs[g].cls;
    }
  }

  lemma NoSlab(m: Mem, a: nat)
    requires |m.caches| == CLASSES && (a < PAGE_OFFSET || FrameOf(a) !in m.slabs)
    ensures Slabs.Kfree(m, a) == NotFound
  {
  }

  /** The shape of kfree of an address in a slab. */
  lemma KfreeCases(m: Mem, a: nat)
    requires |m.caches| == CLASSES && a >= PAGE_OFFSET && FrameOf(a) in m.slabs && m.slabs[FrameOf(a)].cls < CLASSES
    ensures var f := FrameOf(a); var s := m.slabs[f];
      && VA(f) <= a
      && var j := Index(s, f, a);
         if j >= |s.colors| then Slabs.Kfree(m, a) == Wild
         else
           var m1 := Toggle(m, f, j);
           if !Surplus(m1, f) then Slabs.Kfree(m, a) == Done(m1)
           else if s.cls < 5 then Slabs.Kfree(m, a) == Done(DropFrame(Detach(m1, f), f))
           else Slabs.Kfree(m, a) == FreeParts(Detach(m1, f), f, s.cmap, s.hdr)
  {
    hide FreeParts, DropFrame;
  }

  lemma ClassHasFree(m: Mem, i: nat)
    requires i < CLASSES == |m.caches| && |m.fr.refs| == m.fr.NoPage() && m.caches[i].totalFree != 0
    ensures AllocClass(m, i) == Fast(m, i)
  {
  }

  /** The colour map of a large slab is a block of at most 512 bytes. */
  lemma SmallMap(i: nat)
    requires 5 <= i < CLASSES
    ensures MapBytes(PoolCount(i)) <= 512 && MapClass(i) < 5
  {
  }

  class Kernel {
    const frames: FrameAllocator
    var headers: map<nat, Header>
    var caches: seq<Cache>

    ghost predicate Valid()
      reads this, frames, frames.Repr()
    {
      frames.Valid() && |caches| == CLASSES
    }

    ghost function View(): Mem
      reads this, frames, frames.Repr()
    {
      Mem(frames.View(), SlabsOf(headers), caches)
    }

    constructor (fa: FrameAllocator, hs: map<nat, Header>, cs: seq<Cache>)
      requires fa.Valid() && |cs| == CLASSES
      ensures frames == fa && headers == hs && caches == cs && Valid()
    {
      frames, headers, caches := fa, hs, cs;
    }

    /** do { ... } while (Slab != &cache_pool): from the initial slab along the list. */
    method Walk(i: nat) returns (f: nat)
      requires Valid() && i < CLASSES && Books(View()) && caches[i].totalFree != 0
      ensures FirstSlab(View(), caches[i].order, 0) == Some(f)
      ensures f in headers && headers[f].cls == i
    {
      ghost var m := View();
      WalkEnds(m, i);
      assert Listed(m, i);
      var order := caches[i].order;
      var k := 0;
      f := order[0];
      while headers[f].free == 0
        invariant k < |order| && f == order[k] && f in headers
        invariant FirstSlab(m, order, 0) == FirstSlab(m, order, k)
        decreases |order| - k
      {
        k := k + 1;
        assert k < |order|;
        f := order[k];
      }
    }

    /** kmalloc when the class has a free block. */
    method TakeBlock(i: nat) returns (a: nat)
      requires Valid() && i < CLASSES && Books(View()) && caches[i].totalFree != 0
      modifies this
      ensures Valid() && Fast(old(View()), i) == Got(View(), a)
    {
      ghost var m := View();
      ghost var f0, j0 := FastFinds(m, i);
      var f := Walk(i);
      WordsCover(m, headers, f);
      var s := headers[f];
      var j := Scan(s.words, s.count);
      a := VA(f) + Size(i) * j.value;
      MarkBlock(f, j.value);
    }

    method MarkBlock(f: nat, j: nat)
      requires Valid() && f in headers && headers[f].cls < CLASSES && j < 64 * |headers[f].words|
      modifies this
      ensures Valid() && View() == Take(old(View()), f, j)
    {
      var s := headers[f];
      var c := caches[s.cls];
      BitsUpdate(s.words, j, true);
      var t := s.(words := s.words[j / 64 := s.words[j / 64][j % 64 := true]], using := s.using + 1, free := s.free - 1);
      SlabsOfUpdate(headers, f, t);
      headers := headers[f := t];
      caches := caches[s.cls := c.(totalFree := c.totalFree - 1, totalUsing := c.totalUsing + 1)];
    }

    /** A new slab in frame p joins the list of its class. */
    method LinkSlab(p: nat, i: nat, hdr: nat, cmap: nat)
      requires Valid() && i < CLASSES
      modifies this
      ensures Valid() && View() == AddSlab(old(View()), p, NewSlab(i, hdr, cmap))
    {
      LayoutFacts(i);
      var n := NewCount(i);
      var words := FreshMap(n, 1);
      FreshIsNew(words, n);
      hide Bits, NewMap;
      var h := Header(i, n, words, n - 1, 1, hdr, cmap);
      SlabsOfUpdate(headers, p, h);
      headers := headers[p := h];
      var c := caches[i];
      caches := caches[i := Cache(c.order + [p], c.totalFree + h.free, c.totalUsing + h.using)];
    }

    method Kmalloc(size: nat, ghost o: Owners) returns (r: Outcome)
      requires Valid() && Inv(View(), o)
      modifies this, frames`used, frames.bits, frames.attr, frames.refs
      decreases if size > 512 then 1 else 0, 2
      ensures Valid() && frames.Repr() == old(frames.Repr())
      ensures match Slabs.Kmalloc(old(View()), size)
        case Null => r == NullPointer && View() == old(View())
        case Got(m, a) => r == Block(a) && View() == m
        case _ => r == Crash
    {
      hide Inv, Books, Fast, AllocSmall;
      if size > MAX_BLOCK {
        return NullPointer;
      }
      var i := FindClass(size);
      InvBooks(View(), o);
      LayoutFacts(i);
      if caches[i].totalFree != 0 {
        ClassHasFree(View(), i);
        var a := TakeBlock(i);
        return Block(a);
      } else if i < 5 {
        r := GrowSmall(i);
      } else {
        r := GrowLarge(i, o);
      }
    }

    /** The header and the colour map of a new slab of a large class come from kmalloc itself. */
    method MetaBlocks(i: nat, ghost o: Owners) returns (ok: bool, hdr: nat, cmap: nat)
      requires Valid() && 5 <= i < CLASSES && Inv(View(), o)
      modifies this, frames`used, frames.bits, frames.attr, frames.refs
      decreases 1, 0
      ensures Valid() && frames.Repr() == old(frames.Repr())
      ensures MapClass(i) < 5 && |old(View()).fr.refs| == old(View()).fr.NoPage()
      ensures var h := AllocSmall(old(View()), 2);
        if !h.Got? then !ok
        else
          && |h.mem.caches| == CLASSES && |h.mem.fr.refs| == h.mem.fr.NoPage()
          && var k := AllocSmall(h.mem, MapClass(i));
             ok == k.Got? && (ok ==> hdr == h.addr && cmap == k.addr && View() == k.mem)
    {
      hide Inv, AllocSmall, OthersSame, FreeFrames, OwnFrames, SlabsKept, BlockOf;
      hdr, cmap := 0, 0;
      ghost var m := View();
      SmallMap(i);
      LayoutFacts(i);
      InvCaches(m, o);
      AllocSmallCorrect(m, o, 2);
      var h := Kmalloc(SLAB_BYTES, o);
      if h == Crash { return false, 0, 0; }
      ghost var o1 := o.(held := o.held + {h.addr});
      ghost var m1 := View();
      InvCaches(m1, o1);
      AllocSmallCorrect(m1, o1, MapClass(i));
      var c := Kmalloc(MapBytes(PoolCount(i)), o1);
      if c == Crash { return false, 0, 0; }
      return true, h.addr, c.addr;
    }

    /** kmalloc when a small class has no free block: a new slab, its first block handed out. */
    method GrowSmall(i: nat) returns (r: Outcome)
      requires Valid() && i < 5 && caches[i].totalFree == 0 && View().fr.Consistent()
      modifies this, frames`used, frames.bits, frames.attr, frames.refs
      ensures Valid() && frames.Repr() == old(frames.Repr())
      ensures match AllocSmall(old(View()), i)
        case Got(m, a) => r == Block(a) && View() == m
        case _ => r == Crash
    {
      FreeFramesFacts(View());
      var page, wild := frames.AllocPages(1, PG_KERNEL);
      if page == None {
        return Crash;
      }
      var p := page.value;
      var hdr := VA(p) + InlineBytes(i);
      LinkSlab(p, i, hdr, hdr + SLAB_BYTES);
      r := Block(VA(p));
    }

    /** The same for a large class, whose header and colour map are blocks. */
    method GrowLarge(i: nat, ghost o: Owners) returns (r: Outcome)
      requires Valid() && 5 <= i < CLASSES && caches[i].totalFree == 0 && Inv(View(), o)
      modifies this, frames`used, frames.bits, frames.attr, frames.refs
      decreases 1, 1
      ensures Valid() && frames.Repr() == old(frames.Repr())
      ensures |old(View()).fr.refs| == old(View()).fr.NoPage()
      ensures match AllocClass(old(View()), i)
        case Got(m, a) => r == Block(a) && View() == m
        case _ => r == Crash
    {
      hide Inv, AllocSmall, NewSlab, AddSlab, Alloc, FreeFrames, MapClass, Size, PoolCount, NewCount, InlineBytes, MapBytes;
      InvCaches(View(), o);
      FreeFramesFacts(View());
      LayoutFacts(i);
      ghost var m := View();
      var page, wild := frames.AllocPages(1, PG_KERNEL);
      if page == None {
        return Crash;
      }
      var p := page.value;
      FrameTakenKeepsInv(m, o, PG_KERNEL);
      var ok, hdr, cmap := MetaBlocks(i, o.(user := o.user + {p}));
      if !ok { return Crash; }
      LinkSlab(p, i, hdr, cmap);
      r := Block(VA(p));
    }

    // ----- kfree -----

    /** The search of kfree: every slab of every class, by the frame address. */
    method FindSlab(a: nat) returns (r: Option<nat>)
      requires Valid() && Searchable(View())
      ensures r == if a >= PAGE_OFFSET && FrameOf(a) in headers then Some(FrameOf(a)) else None
    {
      hide Searchable;
      ghost var here := a >= PAGE_OFFSET && FrameOf(a) in headers;
      if here { ClassOf(View(), FrameOf(a)); }
      var page := a - a % PAGE_2M;
      var i := 0;
      while i < CLASSES
        invariant i <= CLASSES
        invariant here ==> headers[FrameOf(a)].cls >= i
      {
        var found := FindInClass(i, page, a);
        if found {
          return Some((page - PAGE_OFFSET) / PAGE_2M);
        }
        i := i + 1;
      }
      r := None;
    }

    method FindInClass(i: nat, page: nat, ghost a: nat) returns (found: bool)
      requires Valid() && Searchable(View()) && i < CLASSES && page == a - a % PAGE_2M
      ensures found <==> a >= PAGE_OFFSET && FrameOf(a) in headers && headers[FrameOf(a)].cls == i
      ensures found ==> page >= PAGE_OFFSET && (page - PAGE_OFFSET) / PAGE_2M == FrameOf(a)
    {
      ClassList(View(), i);
      hide Searchable;
      var order := caches[i].order;
      var k := 0;
      while k < |order|
        invariant k <= |order|
        invariant forall n | 0 <= n < k :: VA(order[n]) != page
      {
        if page == VA(order[k]) {
          PageBase(a, order[k]);
          assert order[k] in order;
          return true;
        }
        k := k + 1;
      }
      PageBase(a, FrameOf(a));
      found := false;
    }

    method FlipBlock(f: nat, j: nat)
      requires Valid() && f in headers && headers[f].cls < CLASSES && j < 64 * |headers[f].words|
      modifies this
      ensures Valid() && View() == Toggle(old(View()), f, j)
    {
      var s := headers[f];
      var c := caches[s.cls];
      var v := !s.words[j / 64][j % 64];
      BitsUpdate(s.words, j, v);
      var t := s.(words := s.words[j / 64 := s.words[j / 64][j % 64 := v]], using := s.using - 1, free := s.free + 1);
      SlabsOfUpdate(headers, f, t);
      headers := headers[f := t];
      caches := caches[s.cls := c.(totalUsing := c.totalUsing - 1, totalFree := c.totalFree + 1)];
    }

    method UnlinkSlab(f: nat)
      requires Valid() && f in headers && headers[f].cls < CLASSES
      modifies this
      ensures Valid() && View() == Detach(old(View()), f)
    {
      var s := headers[f];
      var c := caches[s.cls];
      SlabsOfRemove(headers, f);
      headers := headers - {f};
      caches := caches[s.cls := Cache(Without(c.order, f), c.totalFree - s.count, c.totalUsing)];
    }

    method ReturnFrame(f: nat)
      requires Valid() && f < View().fr.NoPage()
      modifies frames`used, frames.bits, frames.attr, frames.refs
      ensures Valid() && frames.Repr() == old(frames.Repr())
      ensures View() == DropFrame(old(View()), f)
    {
      var ok, lost := frames.FreePages(f * PAGE_2M, 1);
    }

    /** kfree of any address. An index behind the colour map makes the source write behind it. */
    method Kfree(a: nat) returns (found: bool, crashed: bool)
      requires Valid() && Searchable(View())
      modifies this, frames`used, frames.bits, frames.attr, frames.refs
      decreases if a >= PAGE_OFFSET && FrameOf(a) in headers && headers[FrameOf(a)].cls >= 5 then 1 else 0, 1
      ensures Valid() && frames.Repr() == old(frames.Repr())
      ensures !crashed ==> Searchable(View())
      ensures match Slabs.Kfree(old(View()), a)
        case Done(m) => found && !crashed && View() == m
        case NotFound => !found && !crashed && View() == old(View())
        case Wild => crashed
    {
      hide Searchable, FreeParts, DropFrame, Slabs.Kfree, FreeSmall;
      found, crashed := true, false;
      var r := FindSlab(a);
      if r == None {
        NoSlab(View(), a);
        return false, false;
      }
      var f := r.value;
      ClassOf(View(), f);
      InFrame(a);
      KfreeCases(View(), a);
      var s := headers[f];
      var j := (a - VA(f)) / Size(s.cls);
      if j >= 64 * |s.words| {
        return true, true;
      }
      ToggleSearchable(View(), f, j);
      FlipBlock(f, j);
      s := headers[f];
      var c := caches[s.cls];
      if s.using == 0 && c.totalFree >= s.count * 3 / 2 && (c.order == [] || c.order[0] != f) {
        if s.cls < 5 {
          GiveBackSmall(f);
        } else {
          crashed := GiveBackLarge(f);
        }
      }
    }

    method GiveBackSmall(f: nat)
      requires Valid() && f in headers && headers[f].cls < 5 && Searchable(View()) && Surplus(View(), f)
      modifies this, frames`used, frames.bits, frames.attr, frames.refs
      ensures Valid() && frames.Repr() == old(frames.Repr())
      ensures View() == DropFrame(Detach(old(View()), f), f) && Searchable(View())
    {
      hide Searchable;
      ClassOf(View(), f);
      DetachSearchable(View(), f);
      UnlinkSlab(f);
      DropSearchable(View(), f);
      ReturnFrame(f);
    }

    /** The nested calls for the colour map and the header of a large slab. */
    method GiveBackLarge(f: nat) returns (crashed: bool)
      requires Valid() && f in headers && headers[f].cls >= 5 && Searchable(View()) && Surplus(View(), f)
      modifies this, frames`used, frames.bits, frames.attr, frames.refs
      decreases 1, 0
      ensures Valid() && frames.Repr() == old(frames.Repr())
      ensures !crashed ==> Searchable(View())
      ensures |Detach(old(View()), f).caches| == CLASSES
      ensures match FreeParts(Detach(old(View()), f), f, old(headers[f].cmap), old(headers[f].hdr))
        case Done(m) => !crashed && View() == m
        case NotFound => false
        case Wild => crashed
    {
      hide Searchable, FreeSmall;
      ghost var m := View();
      var s := headers[f];
      ClassOf(m, f);
      DetachSearchable(m, f);
      DetachedParts(m, f);
      UnlinkSlab(f);
      crashed := FreePart(s.cmap);
      if crashed { return; }
      StaysSmall(Detach(m, f), s.cmap, s.hdr);
      DropSearchable(View(), f);
      ReturnFrame(f);
      crashed := FreePart(s.hdr);
    }

    /** kfree of a header or a colour map. */
    method FreePart(a: nat) returns (crashed: bool)
      requires Valid() && Searchable(View()) && NotLarge(View(), a)
      modifies this, frames`used, frames.bits, frames.attr, frames.refs
      decreases 0, 2
      ensures Valid() && frames.Repr() == old(frames.Repr())
      ensures !crashed ==> Searchable(View())
      ensures |old(View()).caches| == CLASSES
      ensures match FreeSmall(old(View()), a)
        case Done(m) => !crashed && View() == m
        case NotFound => !crashed && View() == old(View())
        case Wild => crashed
    {
      hide Searchable;
      SmallAlone(View(), a);
      var found;
      found, crashed := Kfree(a);
    }
  }
}
