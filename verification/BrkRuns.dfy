/** Any number of sys_brk calls of one process (Kernel/Task.c). */
module BrkRuns {
  import opened Slabs
  import opened SlabOwnership
  import opened SlabCalls
  import opened Paging
  import opened PagingSteps
  import opened PagingMaps
  import opened Brk

  /** The calls of sys_brk one after the other; each starts from the end_brk the one before left. */
  function Brks(s: Memory, mm: MM, calls: seq<nat>, attr: Attr): (r: BrkRes)
    decreases |calls|
  {
    if calls == [] then BrkOk(s, mm.end)
    else if |s.m.caches| != CLASSES || |s.m.fr.refs| != s.m.fr.NoPage() then BrkCrash
    else match SysBrk(s, mm, calls[0], attr)
      case BrkOk(s1, end) => Brks(s1, mm.(end := end), calls[1..], attr)
      case BrkCrash => BrkCrash
  }

  /** No argument of calls rounds to a page between zero and start_brk. */
  ghost predicate AtHeap(mm: MM, calls: seq<nat>)
  {
    forall k | 0 <= k < |calls| :: Align2M(calls[k]) == 0 || Align2M(calls[k]) >= mm.start
  }

  /** After any such calls: the pages from start_brk to end_brk are exactly the mapped ones, each on a
      frame of its own; of the process's frames only those of the heap changed; and the pages below
      start_brk and the other spaces are as they were. */
  lemma {:induction false} BrksCorrect(s: Memory, l: Levels, o: Owners, mm: MM, heap: seq<nat>, calls: seq<nat>, attr: Attr)
    returns (l': Levels, o': Owners, heap': seq<nat>)
    requires mm.root in l.l4 && attr.pde != {} && AtHeap(mm, calls)
    requires HeapInv(s, o, mm, heap) && Roomy(s, mm) && PagingInv(s, l, o)
    ensures var r := Brks(s, mm, calls, attr);
      r.BrkOk? ==>
        && BrkDone(s, l, o, r.mem, l', o') && HeapInv(r.mem, o', mm.(end := r.end), heap')
        && Roomy(r.mem, mm.(end := r.end))
        && o'.user == o.user - FrameSet(heap) + FrameSet(heap') && FrameSet(heap') !! o.user - FrameSet(heap)
        && OthersKept(s.pt, r.mem.pt, l, mm.root, mm.start, USER_TOP)
        && (HeapAllows(s.pt, mm, |heap|, Common(attr)) ==> HeapAllows(r.mem.pt, mm, |heap'|, Common(attr)))
    decreases |calls|
  {
    hide Inv, PagingInv, HeapInv, OthersKept, SysBrk, Align2M, BrkDone, Roomy, HeapAllows, Allows;
    PagingParts(s, l, o);
    InvCaches(s.m, o);
    HeapDistinct(s, o, mm, heap);
    l', o', heap' := l, o, heap;
    if calls == [] {
      NoChange(s, l, o, mm);
      NothingElse(s, l, mm.root, mm.start, USER_TOP);
    } else {
      assert Align2M(calls[0]) == 0 || Align2M(calls[0]) >= mm.start;
      var l1, o1, heap1 := SysBrkCorrect(s, l, o, mm, heap, calls[0], attr);
      var r1 := SysBrk(s, mm, calls[0], attr);
      if r1.BrkOk? {
        var mm1 := mm.(end := r1.end);
        OneCall(s, l, o, mm, heap, r1.mem, l1, o1, mm1, heap1);
        SameHeap(r1.mem.pt, mm, mm1, |heap1|, Common(attr));
        assert AtHeap(mm1, calls[1..]);
        l', o', heap' := BrksCorrect(r1.mem, l1, o1, mm1, heap1, calls[1..], attr);
        var r := Brks(r1.mem, mm1, calls[1..], attr);
        if r.BrkOk? {
          SameHeap(r.mem.pt, mm, mm1, |heap'|, Common(attr));
          FramesOver(o.user, FrameSet(heap), o1.user, FrameSet(heap1), o'.user, FrameSet(heap'));
          CallsChain(s, l, o, r1.mem, l1, o1, r.mem, l', o', mm.root, mm.start, USER_TOP);
          RoomyStays(s, l, o, r.mem, l', o', mm, mm.(end := r.end));
        }
      }
    }
  }

  lemma FramesOver(u: set<nat>, h: set<nat>, u1: set<nat>, h1: set<nat>, u2: set<nat>, h2: set<nat>)
    requires u1 == u - h + h1 && h1 !! u - h && u2 == u1 - h1 + h2 && h2 !! u1 - h1
    ensures u2 == u - h + h2 && h2 !! u - h
  {
  }

  lemma NothingElse(s: Memory, l: Levels, root: nat, lo: nat, hi: nat)
    ensures OthersKept(s.pt, s.pt, l, root, lo, hi)
  {
  }

  /** What one call leaves, in the terms the next one starts from. */
  lemma OneCall(s: Memory, l: Levels, o: Owners, mm: MM, heap: seq<nat>,
                s1: Memory, l1: Levels, o1: Owners, mm1: MM, heap1: seq<nat>)
    requires mm.root in l.l4 && Roomy(s, mm) && HeapInv(s, o, mm, heap) && mm1 == mm.(end := mm1.end)
    requires BrkDone(s, l, o, s1, l1, o1) && HeapInv(s1, o1, mm1, heap1)
    requires OthersKept(s.pt, s1.pt, l, mm.root, if mm1.end < mm.end then mm1.end else mm.end,
                        if mm1.end < mm.end then mm.end else mm1.end)
    ensures PagingInv(s1, l1, o1) && mm1.root in l1.l4 && Roomy(s1, mm1)
    ensures OthersKept(s.pt, s1.pt, l, mm.root, mm.start, USER_TOP)
  {
    hide PagingInv, Walk, SlotOf, Shares, SameShares;
    HeapAligned(s, o, mm, heap);
    HeapAligned(s1, o1, mm1, heap1);
  }

  lemma RoomyStays(s: Memory, l: Levels, o: Owners, s1: Memory, l1: Levels, o1: Owners, mm: MM, mm1: MM)
    requires Roomy(s, mm) && BrkDone(s, l, o, s1, l1, o1) && mm1 == mm.(end := mm1.end)
    ensures Roomy(s1, mm1)
  {
    hide PagingInv;
  }

  lemma CallsChain(s: Memory, l: Levels, o: Owners, s1: Memory, l1: Levels, o1: Owners, s2: Memory, l2: Levels, o2: Owners,
                   root: nat, lo: nat, hi: nat)
    requires BrkDone(s, l, o, s1, l1, o1) && BrkDone(s1, l1, o1, s2, l2, o2) && root in l.l4
    requires OthersKept(s.pt, s1.pt, l, root, lo, hi) && OthersKept(s1.pt, s2.pt, l1, root, lo, hi)
    ensures BrkDone(s, l, o, s2, l2, o2) && OthersKept(s.pt, s2.pt, l, root, lo, hi)
  {
    hide PagingInv, Walk, SlotOf, FlagsKept;
    UpperKeptChain(s.pt, s1.pt, s2.pt, l, l1, l2);
    SharesChain(s.pt, s1.pt, s2.pt, l);
  }
}
