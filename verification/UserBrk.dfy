/** What the user library may expect of brk is what sys_brk does (user/lib_user.c: brk;
    Kernel/Task.c: sys_brk). */
module UserBrk {
  import opened Frames
  import opened Slabs
  import opened SlabOwnership
  import opened Paging
  import Brk
  import UserHeap

  /** In every machine state with a well-formed heap, for an argument at or above start_brk: the new
      end_brk and the answer are those the library's model of brk gives for some number of pages. */
  lemma BrkAnswersAsExpected(s: Memory, l: Levels, o: Owners, mm: Brk.MM, heap: seq<nat>, brk: nat, attr: Attr)
    returns (pages: nat)
    requires |s.m.caches| == CLASSES && |s.m.fr.refs| == s.m.fr.NoPage()
    requires mm.root in l.l4 && attr.pde != {} && (Brk.Align2M(brk) == 0 || Brk.Align2M(brk) >= mm.start)
    requires Brk.HeapInv(s, o, mm, heap) && Brk.Roomy(s, mm) && PagingInv(s, l, o)
    ensures var r := Brk.SysBrk(s, mm, brk, attr);
      r.BrkOk? ==>
        && UserHeap.KernelBrk(mm.start, mm.end, brk, pages) == (r.end, Brk.Answer(mm, brk, r.end))
        && mm.end + pages * PAGE_2M <= UserHeap.USER_TOP
  {
    hide PagingInv, Brk.HeapInv, Brk.Grow, Brk.Shrink, Brk.Align2M, Brk.Roomy;
    var limit := Brk.Align2M(brk);
    var r := Brk.SysBrk(s, mm, brk, attr);
    Brk.HeapAligned(s, o, mm, heap);
    pages := 0;
    if limit != 0 && limit < mm.end {
      var _ := Brk.ShrinkCorrect(s, l, o, mm, heap, limit);
    } else if limit != 0 {
      var l', o', more := Brk.GrowCorrect(s, l, o, mm, heap, limit, attr);
      if r.BrkOk? {
        Brk.HeapAligned(r.mem, o', mm.(end := r.end), heap + more);
        pages := (r.end - mm.end) / PAGE_2M;
        Counted(mm.end, r.end, limit, pages);
      }
    }
  }

  lemma Counted(top: nat, end: nat, limit: nat, pages: nat)
    requires top % PAGE_2M == 0 && end % PAGE_2M == 0 && top <= end <= limit && pages == (end - top) / PAGE_2M
    ensures top + pages * PAGE_2M == end && UserHeap.Least(pages, (limit - top) / PAGE_2M) == pages
  {
  }
}
