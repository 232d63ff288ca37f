/** sys_brk (Kernel/Task.c) over the frame allocator and the page tables. */
module Brk {
  import opened Words
  import opened Sequences
  import opened Frames
  import opened Slabs
  import opened SlabOwnership
  import opened SlabSteps
  import opened SlabCalls
  import opened Paging
  import opened PagingSteps
  import opened PagingMaps
  import opened PagingClear

  /** First address above the user half. */
  const USER_TOP: nat := 0x8000_0000_0000

  /** The fields of mm_struct the heap uses: the PML4, start_brk and end_brk. */
  datatype MM = MM(root: nat, start: nat, end: nat)

  /** PAGE_2M_ALIGN on a 64-bit address: it wraps to 0 close to 2^64. */
  function Align2M(brk: nat): (r: nat)
    ensures r % PAGE_2M == 0
  {
    (brk + PAGE_2M - 1) % TWO_64 / PAGE_2M * PAGE_2M
  }

  /** The attributes of a heap page of a task. */
  function BrkAttr(kthread: bool): (r: Attr)
  {
    var us := if kthread then {} else {US};
    Attr({RW, P} + us, {RW, P} + us, {PS, P, RW} + us)
  }

  datatype BrkRes = BrkCrash | BrkOk(mem: Memory, end: nat)

  /** The growing loop: page i, then i + 2 MB, below limit. */
  function Grow(s: Memory, root: nat, i: nat, limit: nat, attr: Attr): (r: BrkRes)
    requires |s.m.caches| == CLASSES && |s.m.fr.refs| == s.m.fr.NoPage()
    decreases limit - i
  {
    if i >= limit then BrkOk(s, i)
    else match Alloc(s.m.fr, 1, 0)
      case Run(p, fr) =>
        if |fr.refs| != fr.NoPage() then BrkCrash
        else (match PagetableInit(s.(m := s.m.(fr := fr)), root, p * PAGE_2M, i, 1, attr)
          case Mapped(s1) =>
            if |s1.m.caches| != CLASSES || |s1.m.fr.refs| != s1.m.fr.NoPage() then BrkCrash
            else Grow(s1, root, i + PAGE_2M, limit, attr)
          case Zero => BrkOk(s.(m := s.m.(fr := fr)), i)
          case Crashed => BrkCrash)
      case _ => BrkOk(s, i)
  }

  /** The shrinking loop: the page below end, then down to limit. */
  function Shrink(s: Memory, root: nat, end: nat, limit: nat): (r: BrkRes)
    decreases end
  {
    if end < PAGE_2M || end - PAGE_2M < limit then BrkOk(s, end)
    else match ClearPage(s.pt, root, end - PAGE_2M)
      case None => BrkOk(s, end)
      case Some((phys, pt)) =>
        if phys == 0 then BrkOk(s.(pt := pt), end)
        else if phys / PAGE_2M >= s.m.fr.NoPage() || |s.m.fr.refs| != s.m.fr.NoPage() || s.m.fr.NoPage() > |s.m.fr.bits|
        then BrkCrash
        else (match Release(s.m.fr, phys, 1)
          case Freed(fr) => Shrink(Memory(s.m.(fr := fr), pt), root, end - PAGE_2M, limit)
          case _ => BrkCrash)
  }

  /** sys_brk: the new memory and the new end_brk. */
  function SysBrk(s: Memory, mm: MM, brk: nat, attr: Attr): (r: BrkRes)
    requires |s.m.caches| == CLASSES && |s.m.fr.refs| == s.m.fr.NoPage()
  {
    var limit := Align2M(brk);
    if limit == 0 then BrkOk(s, mm.end)
    else if limit < mm.end then Shrink(s, mm.root, mm.end, limit)
    else Grow(s, mm.root, mm.end, limit, attr)
  }

  /** The value sys_brk returns: start_brk for an argument that rounds to zero, else end_brk. */
  function Answer(mm: MM, brk: nat, end: nat): (r: nat)
  {
    if Align2M(brk) == 0 then mm.start else end
  }

  // ----- the heap of a process -----

  /** Address v belongs to a page backed by frame f. */
  ghost predicate Backed(pt: map<nat, Table>, root: nat, v: nat, f: nat)
  {
    Walk(pt, root, SlotOf(v)).Some? && Walk(pt, root, SlotOf(v)).value.base == f * PAGE_2M
  }

  function HeapPage(mm: MM, k: nat): (r: nat) { mm.start + k * PAGE_2M }

  /** The pages of [start_brk, end_brk) are exactly the mapped pages from start_brk up; page k is
      backed by frame heap[k], and the frames are different ones handed out by alloc_pages. */
  ghost predicate HeapInv(s: Memory, o: Owners, mm: MM, heap: seq<nat>)
  {
    && mm.start % PAGE_2M == 0 && mm.end == HeapPage(mm, |heap|) && mm.end <= USER_TOP
    && Distinct(heap) && (forall f | f in heap :: f in o.user)
    && (forall k: nat | k < |heap| :: Backed(s.pt, mm.root, HeapPage(mm, k), heap[k]))
    && (forall v: nat | mm.end <= v < USER_TOP :: Walk(s.pt, mm.root, SlotOf(v)) == None)
  }

  /** The machine has less memory than the user half has room. */
  ghost predicate Roomy(s: Memory, mm: MM)
  {
    mm.start + s.m.fr.NoPage() * PAGE_2M <= USER_TOP
  }

  /** The processor lets accesses of this kind through to each of the first n heap pages. */
  ghost predicate HeapAllows(pt: map<nat, Table>, mm: MM, n: nat, need: set<Flag>)
  {
    forall k: nat | k < n :: Allows(pt, mm.root, SlotOf(HeapPage(mm, k)), need)
  }

  /** What the attributes of sys_brk let through on every level: reads and writes, and a user's accesses
      unless the task is a kernel thread. */
  lemma HeapAttributes(kthread: bool)
    ensures P in Common(BrkAttr(kthread)) && RW in Common(BrkAttr(kthread)) && (US in Common(BrkAttr(kthread)) <==> !kthread)
    ensures forall f | f in BrkAttr(kthread).pml4e + BrkAttr(kthread).pdpte + BrkAttr(kthread).pde ::
      f == P || f == RW || f == PS || (f == US && !kthread)
    ensures PS in BrkAttr(kthread).pde && PS !in BrkAttr(kthread).pml4e && PS !in BrkAttr(kthread).pdpte
  {
  }

  // ----- counting frames -----

  /** A heap with one more frame still ends inside the user half. */
  lemma RoomForOneMore(s: Memory, o: Owners, mm: MM, heap: seq<nat>, p: nat)
    requires HeapInv(s, o, mm, heap) && Roomy(s, mm) && p !in o.user && s.m.fr.Free(p)
    requires Inv(s.m, o)
    ensures mm.end + PAGE_2M <= USER_TOP
  {
    hide Inv;
    SlabFrames(s.m, o);
    var x := heap + [p];
    forall k | 0 <= k < |x| ensures x[k] < s.m.fr.NoPage() {
      if k < |heap| { assert heap[k] in heap; assert s.m.fr.Allocated(heap[k]); }
    }
    assert Distinct(x) by {
      forall i, j | 0 <= i < j < |x| ensures x[i] != x[j] { assert heap[i] in heap; }
    }
    Pigeonhole(x, s.m.fr.NoPage());
  }

  // ----- pages are told apart -----

  lemma UserPages(v: nat, w: nat)
    requires v % PAGE_2M == 0 && v < USER_TOP && w < USER_TOP
    ensures SlotOf(v) == SlotOf(w) <==> v <= w < v + PAGE_2M
  {
    hide SlotOf, PageNo;
    SlotsInjective(v, w);
    UserPageNo(v);
    UserPageNo(w);
    SamePage(v, w);
  }

  lemma UserPageNo(v: nat)
    requires v < USER_TOP
    ensures PageNo(v) == v / PAGE_2M
  {
  }

  lemma SamePage(v: nat, w: nat)
    requires v % PAGE_2M == 0
    ensures v / PAGE_2M == w / PAGE_2M <==> v <= w < v + PAGE_2M
  {
  }

  /** What a change of root's pages in [lo, hi) leaves alone: the other user pages of root, and
      every page of the spaces that do not share the table. */
  ghost predicate OthersKept(pt: map<nat, Table>, pt': map<nat, Table>, l: Levels, root: nat, lo: nat, hi: nat)
  {
    && (forall w: nat | w < USER_TOP && !(lo <= w < hi) :: Walk(pt', root, SlotOf(w)) == Walk(pt, root, SlotOf(w)))
    && (forall u, w: nat | u in l.l4 && !Shares(pt, u, root, SlotOf(w).a) ::
          Walk(pt', u, SlotOf(w)) == Walk(pt, u, SlotOf(w)))
  }

  // ----- growing -----

  /** A frame taken from alloc_pages does not disturb the tables. */
  lemma FrameTakenKeepsPaging(s: Memory, l: Levels, o: Owners, flags: nat)
    requires |s.m.fr.refs| == s.m.fr.NoPage() && Alloc(s.m.fr, 1, flags).Run? && PagingInv(s, l, o)
    ensures var r := Alloc(s.m.fr, 1, flags);
      && s.m.fr.Free(r.start) && r.start !in o.user && r.start >= 1
      && PagingInv(s.(m := s.m.(fr := r.state)), l, o.(user := o.user + {r.start}))
      && r.state.NoPage() == s.m.fr.NoPage()
  {
    hide Inv, Tree;
    FrameTakenKeepsInv(s.m, o, flags);
    InvCaches(s.m, o);
    AllocOne(s.m.fr, flags);
    var r := Alloc(s.m.fr, 1, flags);
    var s1, o1 := s.(m := s.m.(fr := r.state)), o.(user := o.user + {r.start});
    assert Housed(s1, o1) by {
      forall t | t in s1.pt ensures TableAt(s1.m, o1, t) { assert TableAt(s.m, o, t); }
    }
  }

  /** The heap after page end was backed by frame p. */
  lemma HeapGrows(s: Memory, o: Owners, mm: MM, heap: seq<nat>, s': Memory, o': Owners, l: Levels, p: nat, flags: set<Flag>)
    requires HeapInv(s, o, mm, heap) && mm.root in l.l4 && mm.end + PAGE_2M <= USER_TOP && p !in o.user
    requires o'.user == o.user + {p}
    requires RangeMapped(s.pt, s'.pt, l, mm.root, mm.end, p * PAGE_2M, 0, 1, flags)
    ensures HeapInv(s', o', mm.(end := mm.end + PAGE_2M), heap + [p])
    ensures OthersKept(s.pt, s'.pt, l, mm.root, mm.end, mm.end + PAGE_2M)
  {
    hide Walk;
    var root, x := mm.root, PageSlot(mm.end, 0);
    var mm', heap' := mm.(end := mm.end + PAGE_2M), heap + [p];
    assert x == SlotOf(mm.end);
    assert Walk(s'.pt, root, x) == Some(Entry(p * PAGE_2M, flags));
    forall w: nat | w < USER_TOP && !(mm.end <= w < mm.end + PAGE_2M)
      ensures Walk(s'.pt, root, SlotOf(w)) == Walk(s.pt, root, SlotOf(w))
    {
      UserPages(mm.end, w);
    }
    forall u, w: nat | u in l.l4 && !Shares(s.pt, u, root, SlotOf(w).a)
      ensures Walk(s'.pt, u, SlotOf(w)) == Walk(s.pt, u, SlotOf(w)) {}
    hide SlotOf, PageSlot, RangeMapped, Shares;
    forall k: nat | k < |heap'| ensures Backed(s'.pt, root, HeapPage(mm', k), heap'[k]) {
      if k < |heap| {
        assert HeapPage(mm, k) < mm.end && Backed(s.pt, root, HeapPage(mm, k), heap[k]);
      }
    }
    assert Distinct(heap') by {
      forall i, j | 0 <= i < j < |heap'| ensures heap'[i] != heap'[j] { assert heap[i] in heap; }
    }
  }

  /** What a brk call may have done: the heap changed at its end, and only there. */
  ghost predicate BrkDone(s: Memory, l: Levels, o: Owners, s': Memory, l': Levels, o': Owners)
  {
    PagingInv(s', l', o') && l'.l4 == l.l4 && o'.base == o.base && s'.m.fr.NoPage() == s.m.fr.NoPage()
    && SameShares(s.pt, s'.pt, l) && UpperKept(s.pt, s'.pt, l, l')
  }

  function FrameSet(heap: seq<nat>): (r: set<nat>) { set f | f in heap }

  lemma FirstSlot(v: nat)
    ensures PageSlot(v, 0) == SlotOf(v)
  {
  }

  /** One round of the growing loop. */
  lemma GrowStep(s: Memory, l: Levels, o: Owners, mm: MM, heap: seq<nat>, attr: Attr) returns (l2: Levels, o2: Owners)
    requires |s.m.caches| == CLASSES && |s.m.fr.refs| == s.m.fr.NoPage() && Alloc(s.m.fr, 1, 0).Run?
    requires mm.root in l.l4 && attr.pde != {}
    requires HeapInv(s, o, mm, heap) && Roomy(s, mm) && PagingInv(s, l, o)
    ensures var a := Alloc(s.m.fr, 1, 0);
      && a.start !in o.user && |a.state.refs| == a.state.NoPage()
      && var r := PagetableInit(s.(m := s.m.(fr := a.state)), mm.root, a.start * PAGE_2M, mm.end, 1, attr);
         && !r.Zero?
         && (r.Mapped? ==>
              && |r.mem.m.caches| == CLASSES && |r.mem.m.fr.refs| == r.mem.m.fr.NoPage()
              && BrkDone(s, l, o, r.mem, l2, o2) && o2.user == o.user + {a.start}
              && HeapInv(r.mem, o2, mm.(end := mm.end + PAGE_2M), heap + [a.start])
              && OthersKept(s.pt, r.mem.pt, l, mm.root, mm.end, mm.end + PAGE_2M)
              && Allows(r.mem.pt, mm.root, SlotOf(mm.end), Common(attr)))
  {
    hide Inv, PagingInv, HeapInv, PagetableInit, Walk, Alloc, Lookup, Shares, SlotOf, RangeMapped;
    var p := Alloc(s.m.fr, 1, 0).start;
    FrameTakenKeepsPaging(s, l, o, 0);
    PagingParts(s, l, o);
    RoomForOneMore(s, o, mm, heap, p);
    var s1, o1 := s.(m := s.m.(fr := Alloc(s.m.fr, 1, 0).state)), o.(user := o.user + {p});
    PagingParts(s1, l, o1);
    HeapAligned(s, o, mm, heap);
    l2, o2 := MapThenTranslate(s1, l, o1, mm.root, p * PAGE_2M, mm.end, 1, attr);
    var r := PagetableInit(s1, mm.root, p * PAGE_2M, mm.end, 1, attr);
    if r.Mapped? {
      HeapGrows(s, o, mm, heap, r.mem, o2, l, p, attr.pde);
      PagingParts(r.mem, l2, o2);
      FirstSlot(mm.end);
      assert Allows(r.mem.pt, mm.root, PageSlot(mm.end, 0), Common(attr));
    }
  }

  /** Growing: the new pages follow the old ones, each on a frame nobody had. If alloc_pages runs
      dry the loop stops, and end_brk is where the mapped pages end. */
  lemma {:induction false} GrowCorrect(s: Memory, l: Levels, o: Owners, mm: MM, heap: seq<nat>, limit: nat, attr: Attr)
    returns (l': Levels, o': Owners, more: seq<nat>)
    requires |s.m.caches| == CLASSES && |s.m.fr.refs| == s.m.fr.NoPage()
    requires mm.root in l.l4 && attr.pde != {} && limit % PAGE_2M == 0
    requires HeapInv(s, o, mm, heap) && Roomy(s, mm) && PagingInv(s, l, o)
    ensures var r := Grow(s, mm.root, mm.end, limit, attr);
      r.BrkOk? ==>
        && BrkDone(s, l, o, r.mem, l', o') && HeapInv(r.mem, o', mm.(end := r.end), heap + more)
        && o'.user == o.user + FrameSet(more) && FrameSet(more) !! o.user
        && mm.end <= r.end <= (if limit < mm.end then mm.end else limit)
        && OthersKept(s.pt, r.mem.pt, l, mm.root, mm.end, r.end)
        && (r.end < limit ==> Alloc(r.mem.m.fr, 1, 0).NoRun?)
        && (HeapAllows(s.pt, mm, |heap|, Common(attr)) ==> HeapAllows(r.mem.pt, mm, |heap + more|, Common(attr)))
    decreases limit - mm.end
  {
    hide Inv, PagingInv, HeapInv, PagetableInit, Walk, Alloc, Lookup, Shares, SlotOf, OthersKept, UpperKept, Allows, HeapAllows;
    l', o', more := l, o, [];
    assert heap + [] == heap;
    PagingParts(s, l, o);
    InvCaches(s.m, o);
    AllocOne(s.m.fr, 0);
    NoChange(s, l, o, mm);
    HeapAligned(s, o, mm, heap);
    if mm.end < limit && Alloc(s.m.fr, 1, 0).Run? {
      var l2, o2 := GrowStep(s, l, o, mm, heap, attr);
      var p := Alloc(s.m.fr, 1, 0).start;
      var r := PagetableInit(s.(m := s.m.(fr := Alloc(s.m.fr, 1, 0).state)), mm.root, p * PAGE_2M, mm.end, 1, attr);
      if r.Mapped? {
        var mm2 := mm.(end := mm.end + PAGE_2M);
        l', o', more := GrowCorrect(r.mem, l2, o2, mm2, heap + [p], limit, attr);
        var r2 := Grow(r.mem, mm.root, mm2.end, limit, attr);
        if HeapAllows(s.pt, mm, |heap|, Common(attr)) { AllowsOneMore(s, l, o, r.mem, l2, o2, mm, heap, p, Common(attr)); }
        if r2.BrkOk? {
          BrkChain(s, l, o, r.mem, l2, o2, r2.mem, l', o', mm.root, mm.end, mm2.end, r2.end);
          SameHeap(r2.mem.pt, mm, mm2, |heap + [p] + more|, Common(attr));
          assert heap + [p] + more == heap + ([p] + more);
          assert FrameSet([p] + more) == {p} + FrameSet(more);
        }
        more := [p] + more;
      }
    }
  }

  lemma SameHeap(pt: map<nat, Table>, mm: MM, mm1: MM, n: nat, need: set<Flag>)
    requires mm1.root == mm.root && mm1.start == mm.start
    ensures HeapAllows(pt, mm1, n, need) <==> HeapAllows(pt, mm, n, need)
  {
    hide Allows, SlotOf;
    forall k: nat | k < n ensures HeapPage(mm1, k) == HeapPage(mm, k) {}
  }

  /** The old heap pages still let through what they did, and the new one does, too. */
  lemma AllowsOneMore(s: Memory, l: Levels, o: Owners, s2: Memory, l2: Levels, o2: Owners, mm: MM, heap: seq<nat>, p: nat, need: set<Flag>)
    requires mm.root in l.l4 && HeapAllows(s.pt, mm, |heap|, need) && HeapInv(s, o, mm, heap) && PagingInv(s, l, o)
    requires BrkDone(s, l, o, s2, l2, o2) && OthersKept(s.pt, s2.pt, l, mm.root, mm.end, mm.end + PAGE_2M)
    requires Allows(s2.pt, mm.root, SlotOf(mm.end), need)
    ensures HeapAllows(s2.pt, mm.(end := mm.end + PAGE_2M), |heap + [p]|, need)
  {
    hide HeapAllows, Allows, SlotOf, HeapInv, PagingInv, OthersKept, BrkDone;
    HeapEnd(s, o, mm, heap);
    AllowsStay(s, l, o, s2, l2, o2, mm, heap, |heap|, mm.end, mm.end + PAGE_2M, need);
    NextPageAllows(s2.pt, mm, |heap|, need);
    SameHeap(s2.pt, mm, mm.(end := mm.end + PAGE_2M), |heap| + 1, need);
  }

  lemma NextPageAllows(pt: map<nat, Table>, mm: MM, n: nat, need: set<Flag>)
    requires HeapAllows(pt, mm, n, need) && Allows(pt, mm.root, SlotOf(HeapPage(mm, n)), need)
    ensures HeapAllows(pt, mm, n + 1, need)
  {
    hide Allows, SlotOf;
  }

  /** Heap pages below lo let through what they did if only pages from lo to hi changed. */
  lemma AllowsStay(s: Memory, l: Levels, o: Owners, s2: Memory, l2: Levels, o2: Owners, mm: MM, heap: seq<nat>, n: nat,
                   lo: nat, hi: nat, need: set<Flag>)
    requires mm.root in l.l4 && HeapAllows(s.pt, mm, |heap|, need) && PagingInv(s, l, o)
    requires n <= |heap| && HeapPage(mm, n) <= lo && lo <= USER_TOP
    requires BrkDone(s, l, o, s2, l2, o2) && OthersKept(s.pt, s2.pt, l, mm.root, lo, hi)
    ensures HeapAllows(s2.pt, mm, n, need)
  {
    hide Allows, SlotOf, PagingInv, Walk, UpperKept, SameShares, Shares;
    forall k: nat | k < n ensures Allows(s2.pt, mm.root, SlotOf(HeapPage(mm, k)), need) {
      assert HeapPage(mm, k) < lo;
      AllowsKept(s, l, o, s2, l2, o2, mm.root, SlotOf(HeapPage(mm, k)), need);
    }
  }

  lemma BrkChain(s: Memory, l: Levels, o: Owners, s1: Memory, l1: Levels, o1: Owners, s2: Memory, l2: Levels, o2: Owners,
                 root: nat, lo: nat, mid: nat, hi: nat)
    requires BrkDone(s, l, o, s1, l1, o1) && BrkDone(s1, l1, o1, s2, l2, o2) && root in l.l4 && lo <= mid <= hi
    requires OthersKept(s.pt, s1.pt, l, root, lo, mid) && OthersKept(s1.pt, s2.pt, l1, root, mid, hi)
    ensures BrkDone(s, l, o, s2, l2, o2) && OthersKept(s.pt, s2.pt, l, root, lo, hi)
  {
    hide PagingInv, Walk, SlotOf, FlagsKept;
    UpperKeptChain(s.pt, s1.pt, s2.pt, l, l1, l2);
    SharesChain(s.pt, s1.pt, s2.pt, l);
  }

  lemma HeapAligned(s: Memory, o: Owners, mm: MM, heap: seq<nat>)
    requires HeapInv(s, o, mm, heap)
    ensures mm.end % PAGE_2M == 0 && mm.start <= mm.end <= USER_TOP
  {
  }

  lemma NoChange(s: Memory, l: Levels, o: Owners, mm: MM)
    requires PagingInv(s, l, o)
    ensures BrkDone(s, l, o, s, l, o) && OthersKept(s.pt, s.pt, l, mm.root, mm.end, mm.end)
  {
  }

  // ----- shrinking -----

  /** pagetable_clear of a mapped page gives back what pagetable_init had stored, and unmaps that
      page only. */
  lemma ClearMapped(s: Memory, l: Levels, o: Owners, root: nat, v: nat)
    requires root in l.l4 && Walk(s.pt, root, SlotOf(v)).Some?
    requires PagingInv(s, l, o)
    ensures var r := ClearPage(s.pt, root, v);
      && r.Some? && r.value.0 == Walk(s.pt, root, SlotOf(v)).value.base
      && Extends(s, l, o, s.(pt := r.value.1), l, o)
      && WritesOnly(s.pt, r.value.1, l, root, SlotOf(v), None)
  {
    hide PagingInv, WritesOnly, Extends, SlotOf, ClearPage, Lookup;
    ClearStep(s, l, o, root, v);
  }

  /** A frame given back does not disturb the tables. */
  lemma FrameGivenKeepsPaging(s: Memory, l: Levels, o: Owners, f: nat)
    requires f in o.user && PagingInv(s, l, o)
    ensures f >= 1 && f < s.m.fr.NoPage() == |s.m.fr.refs| && s.m.fr.NoPage() <= |s.m.fr.bits|
    ensures var m' := DropFrame(s.m, f);
      && Release(s.m.fr, f * PAGE_2M, 1) == Freed(m'.fr) && m' == s.m.(fr := m'.fr)
      && PagingInv(s.(m := m'), l, o.(user := o.user - {f})) && m'.fr.NoPage() == s.m.fr.NoPage()
  {
    hide Inv, Tree;
    SlabFrames(s.m, o);
    FrameGivenKeepsInv(s.m, o, f);
    var s1, o1 := s.(m := DropFrame(s.m, f)), o.(user := o.user - {f});
    assert Housed(s1, o1) by {
      forall t | t in s1.pt ensures TableAt(s1.m, o1, t) { assert TableAt(s.m, o, t); }
    }
  }

  /** What unmapping the user page at v changes. */
  lemma UnmapsOnly(pt: map<nat, Table>, pt': map<nat, Table>, l: Levels, root: nat, v: nat)
    requires root in l.l4 && v % PAGE_2M == 0 && v < USER_TOP && WritesOnly(pt, pt', l, root, SlotOf(v), None)
    ensures OthersKept(pt, pt', l, root, v, v + PAGE_2M)
    ensures forall w: nat | v <= w < v + PAGE_2M && w < USER_TOP :: Walk(pt', root, SlotOf(w)) == None
  {
    hide Walk;
    forall w: nat | w < USER_TOP && !(v <= w < v + PAGE_2M)
      ensures Walk(pt', root, SlotOf(w)) == Walk(pt, root, SlotOf(w))
    {
      UserPages(v, w);
    }
    forall w: nat | v <= w < v + PAGE_2M && w < USER_TOP ensures Walk(pt', root, SlotOf(w)) == None {
      UserPages(v, w);
      assert Shares(pt, root, root, SlotOf(v).a);
    }
  }

  lemma HeapShrinks(s: Memory, o: Owners, mm: MM, heap: seq<nat>, s': Memory, o': Owners, l: Levels)
    requires HeapInv(s, o, mm, heap) && heap != [] && mm.root in l.l4
    requires o'.user == o.user - {heap[|heap| - 1]} && mm.end >= PAGE_2M
    requires WritesOnly(s.pt, s'.pt, l, mm.root, SlotOf(mm.end - PAGE_2M), None)
    ensures HeapInv(s', o', mm.(end := mm.end - PAGE_2M), heap[..|heap| - 1])
    ensures OthersKept(s.pt, s'.pt, l, mm.root, mm.end - PAGE_2M, mm.end)
  {
    hide Walk, SlotOf, WritesOnly, Shares;
    var v := mm.end - PAGE_2M;
    var mm', heap' := mm.(end := v), heap[..|heap| - 1];
    UnmapsOnly(s.pt, s'.pt, l, mm.root, v);
    forall k: nat | k < |heap'| ensures Backed(s'.pt, mm.root, HeapPage(mm', k), heap'[k]) {
      assert HeapPage(mm, k) < v && Backed(s.pt, mm.root, HeapPage(mm, k), heap[k]);
    }
    assert forall f | f in heap' :: f in heap && f != heap[|heap| - 1];
  }

  lemma ShrinkStep(s: Memory, l: Levels, o: Owners, mm: MM, heap: seq<nat>)
    requires mm.root in l.l4 && heap != []
    requires HeapInv(s, o, mm, heap) && PagingInv(s, l, o)
    ensures mm.end >= PAGE_2M + mm.start
    ensures var f := heap[|heap| - 1]; var r := ClearPage(s.pt, mm.root, mm.end - PAGE_2M);
      && r.Some? && r.value.0 == f * PAGE_2M > 0
      && f < s.m.fr.NoPage() == |s.m.fr.refs| && s.m.fr.NoPage() <= |s.m.fr.bits|
      && Release(s.m.fr, f * PAGE_2M, 1).Freed?
      && var s' := Memory(s.m.(fr := Release(s.m.fr, f * PAGE_2M, 1).state), r.value.1);
         var o' := o.(user := o.user - {f});
         && f in o.user && BrkDone(s, l, o, s', l, o')
         && HeapInv(s', o', mm.(end := mm.end - PAGE_2M), heap[..|heap| - 1])
         && OthersKept(s.pt, s'.pt, l, mm.root, mm.end - PAGE_2M, mm.end)
  {
    hide Inv, PagingInv, Walk, SlotOf, ClearPage, OthersKept, Lookup, Shares;
    var k := |heap| - 1;
    var f := heap[k];
    assert f in heap;
    var v := mm.end - PAGE_2M;
    assert v == HeapPage(mm, k) && Backed(s.pt, mm.root, HeapPage(mm, k), f);
    hide HeapInv;
    ClearMapped(s, l, o, mm.root, v);
    var s1 := s.(pt := ClearPage(s.pt, mm.root, v).value.1);
    FrameGivenKeepsPaging(s1, l, o, f);
    var s', o' := s1.(m := DropFrame(s1.m, f)), o.(user := o.user - {f});
    HeapShrinks(s, o, mm, heap, s', o', l);
  }

  /** Shrinking to a limit at or above start_brk: end_brk becomes the limit, the frames of the
      pages that went are exactly those given back, and nothing else changes. */
  lemma {:induction false} ShrinkCorrect(s: Memory, l: Levels, o: Owners, mm: MM, heap: seq<nat>, limit: nat)
    returns (o': Owners)
    requires mm.root in l.l4 && limit % PAGE_2M == 0 && mm.start <= limit <= mm.end
    requires HeapInv(s, o, mm, heap) && PagingInv(s, l, o)
    ensures var r := Shrink(s, mm.root, mm.end, limit);
      && r.BrkOk? && r.end == limit && (limit - mm.start) / PAGE_2M <= |heap|
      && BrkDone(s, l, o, r.mem, l, o')
      && HeapInv(r.mem, o', mm.(end := limit), heap[..(limit - mm.start) / PAGE_2M])
      && o'.user == o.user - FrameSet(heap[(limit - mm.start) / PAGE_2M..])
      && OthersKept(s.pt, r.mem.pt, l, mm.root, limit, mm.end)
    decreases |heap|
  {
    hide Inv, PagingInv, HeapInv, Walk, SlotOf, ClearPage, OthersKept, Lookup, Shares, Release;
    HeapLength(s, o, mm, heap, limit);
    var n := (limit - mm.start) / PAGE_2M;
    if limit == mm.end {
      o' := o;
      assert heap[..n] == heap && heap[n..] == [];
      NoChange(s, l, o, mm);
    } else {
      ShrinkStep(s, l, o, mm, heap);
      var f := heap[|heap| - 1];
      var s1 := Memory(s.m.(fr := Release(s.m.fr, f * PAGE_2M, 1).state), ClearPage(s.pt, mm.root, mm.end - PAGE_2M).value.1);
      var o1 := o.(user := o.user - {f});
      var heap1 := heap[..|heap| - 1];
      o' := ShrinkCorrect(s1, l, o1, mm.(end := mm.end - PAGE_2M), heap1, limit);
      assert heap1[..n] == heap[..n];
      assert heap[n..] == heap1[n..] + [f];
      assert FrameSet(heap[n..]) == FrameSet(heap1[n..]) + {f};
      var r := Shrink(s1, mm.root, mm.end - PAGE_2M, limit);
      SharesAndOthers(s, l, o, s1, o1, r.mem, o', mm.root, limit, mm.end - PAGE_2M, mm.end);
    }
  }

  lemma HeapLength(s: Memory, o: Owners, mm: MM, heap: seq<nat>, limit: nat)
    requires HeapInv(s, o, mm, heap) && limit % PAGE_2M == 0 && mm.start <= limit <= mm.end
    ensures (limit - mm.start) / PAGE_2M <= |heap|
    ensures limit == mm.end ==> (limit - mm.start) / PAGE_2M == |heap|
    ensures limit < mm.end ==> heap != [] && (limit - mm.start) / PAGE_2M < |heap| && limit <= mm.end - PAGE_2M
  {
  }

  lemma SharesAndOthers(s: Memory, l: Levels, o: Owners, s1: Memory, o1: Owners, s2: Memory, o2: Owners,
                        root: nat, lo: nat, mid: nat, hi: nat)
    requires BrkDone(s, l, o, s1, l, o1) && BrkDone(s1, l, o1, s2, l, o2) && root in l.l4 && lo <= mid <= hi
    requires OthersKept(s.pt, s1.pt, l, root, mid, hi) && OthersKept(s1.pt, s2.pt, l, root, lo, mid)
    ensures BrkDone(s, l, o, s2, l, o2) && OthersKept(s.pt, s2.pt, l, root, lo, hi)
  {
    hide PagingInv, Walk, SlotOf, FlagsKept;
    UpperKeptChain(s.pt, s1.pt, s2.pt, l, l, l);
    SharesChain(s.pt, s1.pt, s2.pt, l);
  }

  // ----- the system call -----

  /** sys_brk at or above start_brk (or with an argument that rounds to 0): the heap's pages are
      exactly the mapped ones again, whether the request was met, shrunk to, or cut short for want
      of frames; other pages and other spaces are untouched; and frames are taken and given back
      for exactly the pages that came and went. */
  lemma SysBrkCorrect(s: Memory, l: Levels, o: Owners, mm: MM, heap: seq<nat>, brk: nat, attr: Attr)
    returns (l': Levels, o': Owners, heap': seq<nat>)
    requires |s.m.caches| == CLASSES && |s.m.fr.refs| == s.m.fr.NoPage()
    requires mm.root in l.l4 && attr.pde != {} && (Align2M(brk) == 0 || Align2M(brk) >= mm.start)
    requires HeapInv(s, o, mm, heap) && Roomy(s, mm) && PagingInv(s, l, o)
    ensures var r := SysBrk(s, mm, brk, attr);
      r.BrkOk? ==>
        && BrkDone(s, l, o, r.mem, l', o') && HeapInv(r.mem, o', mm.(end := r.end), heap')
        && (heap <= heap' || heap' <= heap)
        && o'.user == o.user - FrameSet(heap) + FrameSet(heap') && FrameSet(heap') !! o.user - FrameSet(heap)
        && OthersKept(s.pt, r.mem.pt, l, mm.root, if r.end < mm.end then r.end else mm.end,
                                                  if r.end < mm.end then mm.end else r.end)
        && (Align2M(brk) != 0 && r.end != Align2M(brk) ==> r.end < Align2M(brk) && Alloc(r.mem.m.fr, 1, 0).NoRun?)
        && (HeapAllows(s.pt, mm, |heap|, Common(attr)) ==> HeapAllows(r.mem.pt, mm, |heap'|, Common(attr)))
  {
    hide Inv, PagingInv, HeapInv, Walk, SlotOf, OthersKept, Alloc, Shrink, Grow, Align2M, BrkDone, HeapAllows, Allows;
    l', o', heap' := l, o, heap;
    var limit := Align2M(brk);
    HeapAligned(s, o, mm, heap);
    HeapDistinct(s, o, mm, heap);
    if limit == 0 {
      NoChange(s, l, o, mm);
    } else if limit < mm.end {
      o' := ShrinkCorrect(s, l, o, mm, heap, limit);
      var n := (limit - mm.start) / PAGE_2M;
      heap' := heap[..n];
      SplitFrames(heap, n);
      HeapEnd(s, o, mm, heap);
      PagesUpTo(mm.start, limit, n);
      if HeapAllows(s.pt, mm, |heap|, Common(attr)) {
        AllowsStay(s, l, o, Shrink(s, mm.root, mm.end, limit).mem, l, o', mm, heap, n, limit, mm.end, Common(attr));
      }
    } else {
      var more;
      l', o', more := GrowCorrect(s, l, o, mm, heap, limit, attr);
      heap' := heap + more;
      assert FrameSet(heap') == FrameSet(heap) + FrameSet(more);
    }
  }

  lemma PagesUpTo(start: nat, limit: nat, n: nat)
    requires start % PAGE_2M == 0 && limit % PAGE_2M == 0 && start <= limit && n == (limit - start) / PAGE_2M
    ensures start + n * PAGE_2M == limit
  {
  }

  lemma HeapDistinct(s: Memory, o: Owners, mm: MM, heap: seq<nat>)
    requires HeapInv(s, o, mm, heap)
    ensures Distinct(heap) && FrameSet(heap) <= o.user
  {
  }

  lemma SplitFrames(heap: seq<nat>, n: nat)
    requires Distinct(heap) && n <= |heap|
    ensures FrameSet(heap) == FrameSet(heap[..n]) + FrameSet(heap[n..])
    ensures FrameSet(heap[..n]) !! FrameSet(heap[n..])
  {
  }

  // ----- below start_brk -----

  lemma {:induction false} ShrinkOnlyDown(s: Memory, root: nat, end: nat, limit: nat)
    ensures Shrink(s, root, end, limit).BrkOk? ==> Shrink(s, root, end, limit).end <= end
    decreases end
  {
    hide Walk, SlotOf;
    if end >= PAGE_2M && end - PAGE_2M >= limit {
      match ClearPage(s.pt, root, end - PAGE_2M)
      case None =>
      case Some((phys, pt)) =>
        if phys != 0 && phys / PAGE_2M < s.m.fr.NoPage() && |s.m.fr.refs| == s.m.fr.NoPage() && s.m.fr.NoPage() <= |s.m.fr.bits| {
          match Release(s.m.fr, phys, 1)
          case Freed(fr) => ShrinkOnlyDown(Memory(s.m.(fr := fr), pt), root, end - PAGE_2M, limit);
          case _ =>
        }
    }
  }

  /** The loop does not stop at start_brk by itself: it gives back the heap and goes on. */
  lemma {:induction false} ShrinkThrough(s: Memory, l: Levels, o: Owners, mm: MM, heap: seq<nat>, limit: nat)
    returns (s': Memory, o': Owners)
    requires mm.root in l.l4 && limit <= mm.start
    requires HeapInv(s, o, mm, heap) && PagingInv(s, l, o)
    ensures Shrink(s, mm.root, mm.end, limit) == Shrink(s', mm.root, mm.start, limit)
    ensures BrkDone(s, l, o, s', l, o') && o'.user == o.user - FrameSet(heap)
    ensures OthersKept(s.pt, s'.pt, l, mm.root, mm.start, mm.end)
    decreases |heap|
  {
    hide Inv, PagingInv, HeapInv, Walk, SlotOf, ClearPage, OthersKept, Lookup, Shares, Release;
    NoChange(s, l, o, mm);
    s', o' := s, o;
    HeapEnd(s, o, mm, heap);
    if heap != [] {
      ShrinkStep(s, l, o, mm, heap);
      var f := heap[|heap| - 1];
      var s1 := Memory(s.m.(fr := Release(s.m.fr, f * PAGE_2M, 1).state), ClearPage(s.pt, mm.root, mm.end - PAGE_2M).value.1);
      var o1 := o.(user := o.user - {f});
      var heap1 := heap[..|heap| - 1];
      s', o' := ShrinkThrough(s1, l, o1, mm.(end := mm.end - PAGE_2M), heap1, limit);
      assert FrameSet(heap) == FrameSet(heap1) + {f} by { assert heap == heap1 + [f]; }
      SharesAndOthers(s, l, o, s1, o1, s', o', mm.root, mm.start, mm.end - PAGE_2M, mm.end);
    }
  }

  lemma HeapEnd(s: Memory, o: Owners, mm: MM, heap: seq<nat>)
    requires HeapInv(s, o, mm, heap)
    ensures mm.end == HeapPage(mm, |heap|) && mm.start % PAGE_2M == 0 && mm.start <= mm.end <= USER_TOP
  {
  }

  /** When the page below start_brk is mapped, as the program image at 0x800000 is below the heap
      at 0xA00000: sys_brk leaves a well-formed heap exactly for arguments that round to zero or to
      start_brk and above. A smaller argument makes it unmap and give back the image's page. */
  lemma SysBrkIff(s: Memory, l: Levels, o: Owners, mm: MM, heap: seq<nat>, brk: nat, attr: Attr, g: nat)
    requires |s.m.caches| == CLASSES && |s.m.fr.refs| == s.m.fr.NoPage()
    requires mm.root in l.l4 && attr.pde != {} && mm.start >= PAGE_2M
    requires Backed(s.pt, mm.root, mm.start - PAGE_2M, g) && g in o.user && g !in heap
    requires HeapInv(s, o, mm, heap) && Roomy(s, mm) && PagingInv(s, l, o)
    ensures var r := SysBrk(s, mm, brk, attr);
      r.BrkOk? ==>
        ((exists l', o', heap' :: PagingInv(r.mem, l', o') && HeapInv(r.mem, o', mm.(end := r.end), heap'))
          <==> Align2M(brk) == 0 || Align2M(brk) >= mm.start)
  {
    hide Inv, PagingInv, HeapInv, Walk, SlotOf, OthersKept, Alloc, Shrink, Grow, Align2M;
    var limit := Align2M(brk);
    var r := SysBrk(s, mm, brk, attr);
    HeapEnd(s, o, mm, heap);
    if limit == 0 || limit >= mm.start {
      var l', o', heap' := SysBrkCorrect(s, l, o, mm, heap, brk, attr);
    } else {
      var s1, o1 := ShrinkThrough(s, l, o, mm, heap, limit);
      ImageKept(s, s1, l, mm, g);
      ShrinkPast(s1, l, o1, mm.root, mm.start, limit, g);
      if r.BrkOk? && exists l', o', heap' :: PagingInv(r.mem, l', o') && HeapInv(r.mem, o', mm.(end := r.end), heap') {
        var l', o', heap' :| PagingInv(r.mem, l', o') && HeapInv(r.mem, o', mm.(end := r.end), heap');
        HeapEnd(r.mem, o', mm.(end := r.end), heap');
      }
    }
  }

  lemma ImageKept(s: Memory, s1: Memory, l: Levels, mm: MM, g: nat)
    requires mm.start >= PAGE_2M && mm.start <= USER_TOP && Backed(s.pt, mm.root, mm.start - PAGE_2M, g)
    requires OthersKept(s.pt, s1.pt, l, mm.root, mm.start, mm.end)
    ensures Backed(s1.pt, mm.root, mm.start - PAGE_2M, g)
  {
  }

  lemma ShrinkPast(s: Memory, l: Levels, o: Owners, root: nat, start: nat, limit: nat, g: nat)
    requires root in l.l4 && start >= PAGE_2M && limit % PAGE_2M == 0 && start % PAGE_2M == 0 && limit < start
    requires Backed(s.pt, root, start - PAGE_2M, g) && g in o.user
    requires PagingInv(s, l, o)
    ensures Shrink(s, root, start, limit).BrkOk? ==> Shrink(s, root, start, limit).end < start
  {
    hide Inv, PagingInv, Walk, SlotOf, ClearPage, Release;
    ClearMapped(s, l, o, root, start - PAGE_2M);
    var s1 := s.(pt := ClearPage(s.pt, root, start - PAGE_2M).value.1);
    FrameGivenKeepsPaging(s1, l, o, g);
    ShrinkOnlyDown(Memory(s.m.(fr := Release(s.m.fr, g * PAGE_2M, 1).state), s1.pt), root, start - PAGE_2M, limit);
  }
}
