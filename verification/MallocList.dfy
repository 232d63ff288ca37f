/** malloc and free as they run (user/lib_user.c): descriptors in memory, linked by addresses. */
module MallocList {
  import opened Words
  import opened UserHeap

  /** A mall_des; 0 is NULL. */
  datatype Des = Des(prev: nat, next: nat, end: nat)

  /** The descriptor at list[i] points at its neighbours. */
  predicate Cell(mem: map<nat, Des>, list: seq<Block>, i: nat)
    requires i < |list|
  {
    list[i].at in mem && mem[list[i].at] ==
      Des(if i == 0 then 0 else list[i - 1].at, if i + 1 == |list| then 0 else list[i + 1].at, list[i].end)
  }

  /** The list lies in memory as a doubly linked one. */
  ghost predicate Stored(mem: map<nat, Des>, list: seq<Block>)
  {
    forall i | 0 <= i < |list| :: Cell(mem, list, i)
  }

  /** Addresses tell descriptors apart. */
  ghost predicate Rising(list: seq<Block>)
  {
    forall i, j | 0 <= i < j < |list| :: 0 < list[i].at < list[j].at
  }

  /** mem after the four writes that link b behind descriptor i. */
  ghost predicate LinkedIn(mem: map<nat, Des>, after: map<nat, Des>, list: seq<Block>, i: nat, b: Block)
    requires i < |list|
  {
    && b.at in after && after[b.at] == Des(list[i].at, if i + 1 < |list| then list[i + 1].at else 0, b.end)
    && (forall k | 0 <= k < |list| :: Relinked(mem, after, list, i, b, k))
  }

  predicate Relinked(mem: map<nat, Des>, after: map<nat, Des>, list: seq<Block>, i: nat, b: Block, k: nat)
    requires k < |list|
  {
    var a := list[k].at;
    a in mem && a in after &&
      after[a] == if k == i then mem[a].(next := b.at) else if k == i + 1 then mem[a].(prev := b.at) else mem[a]
  }

  lemma StoredInsert(mem: map<nat, Des>, after: map<nat, Des>, list: seq<Block>, i: nat, b: Block)
    requires i < |list| && Stored(mem, list) && LinkedIn(mem, after, list, i, b)
    ensures Stored(after, Behind(list, i, b))
  {
    var r := Behind(list, i, b);
    assert forall k | 0 <= k < |r| :: r[k] == if k <= i then list[k] else if k == i + 1 then b else list[k - 1];
    forall k | 0 <= k < |r| ensures Cell(after, r, k) {
      if k != i + 1 {
        var j := if k <= i then k else k - 1;
        assert Cell(mem, list, j) && Relinked(mem, after, list, i, b, j);
      }
    }
  }

  /** Writing the end of one descriptor. */
  lemma StoredUpdate(mem: map<nat, Des>, list: seq<Block>, i: nat, end: nat)
    requires i < |list| && Stored(mem, list) && Rising(list)
    ensures list[i].at in mem
    ensures Stored(mem[list[i].at := mem[list[i].at].(end := end)], list[i := Block(list[i].at, end)])
  {
    assert Cell(mem, list, i);
    var r, after := list[i := Block(list[i].at, end)], mem[list[i].at := mem[list[i].at].(end := end)];
    forall k | 0 <= k < |r| ensures Cell(after, r, k) {
      assert Cell(mem, list, k);
    }
  }

  /** The writes of a gap's new descriptor. */
  lemma GapLinks(mem: map<nat, Des>, after: map<nat, Des>, list: seq<Block>, i: nat, b: Block)
    requires Stored(mem, list) && Rising(list) && i + 1 < |list| && list[i].at < b.at < list[i + 1].at
    requires list[i].at in mem && list[i + 1].at in mem
    requires after == mem[b.at := Des(list[i].at, list[i + 1].at, b.end)][list[i].at := mem[list[i].at].(next := b.at)][list[i + 1].at := mem[list[i + 1].at].(prev := b.at)]
    ensures LinkedIn(mem, after, list, i, b)
  {
    forall k | 0 <= k < |list| ensures Relinked(mem, after, list, i, b, k) {
      assert Cell(mem, list, k);
      assert k < i ==> list[k].at < list[i].at;
      assert k > i + 1 ==> list[i + 1].at < list[k].at;
    }
  }

  /** The writes of a new last descriptor. */
  lemma TailLinks(mem: map<nat, Des>, after: map<nat, Des>, list: seq<Block>, b: Block)
    requires Stored(mem, list) && Rising(list) && list != [] && list[|list| - 1].at < b.at && list[|list| - 1].at in mem
    requires after == mem[list[|list| - 1].at := mem[list[|list| - 1].at].(next := b.at)][b.at := Des(list[|list| - 1].at, 0, b.end)]
    ensures LinkedIn(mem, after, list, |list| - 1, b)
  {
    var i := |list| - 1;
    forall k | 0 <= k < |list| ensures Relinked(mem, after, list, i, b, k) {
      assert Cell(mem, list, k);
      assert k < i ==> list[k].at < list[i].at;
    }
  }

  lemma NextIsNull(list: seq<Block>, i: nat)
    requires i < |list| && Rising(list) && list[0].at > 0 && (if i + 1 == |list| then 0 else list[i + 1].at) == 0
    ensures i + 1 == |list|
  {
  }

  lemma NextCell(mem: map<nat, Des>, list: seq<Block>, i: nat)
    requires Stored(mem, list) && Rising(list) && i < |list| && list[0].at > 0
    ensures list[i].at in mem && (mem[list[i].at].next == 0 <==> i + 1 == |list|) && (mem[list[i].at].prev == 0 <==> i == 0)
  {
    assert Cell(mem, list, i);
    if i > 0 { assert Cell(mem, list, i - 1); }
  }

  lemma SoundNotEmpty(h: Heap, live: map<nat, nat>)
    requires Sound(h, live)
    ensures h.list != []
  {
  }

  lemma SoundRises(h: Heap, live: map<nat, nat>)
    requires Sound(h, live)
    ensures h.list != [] && h.list[0].at == h.st > 0 && Rising(h.list)
  {
  }

  lemma GapFacts(h: Heap, live: map<nat, nat>, n: nat)
    requires Sound(h, live)
    ensures h.list != [] && h.list[0].at == h.st > 0 && Rising(h.list)
    ensures var i := Search(h.list, n, 0);
      i < |h.list| && (i + 1 < |h.list| ==> h.list[i].at < h.list[i].end < h.list[i + 1].at)
  {
    hide Search, Owns, Rising;
    SoundRises(h, live);
    SearchInside(h.list, n, 0);
    ListFacts(h.list, Search(h.list, n, 0), h.st, h.top);
  }

  lemma TailRises(h: Heap, live: map<nat, nat>)
    requires Sound(h, live)
    ensures h.list != [] && h.list[|h.list| - 1].at < h.list[|h.list| - 1].end
    ensures NewTail(h).Some? ==> NewTail(h).value.list != [] && Rising(NewTail(h).value.list)
  {
  }

  lemma FreeOutside(h: Heap, live: map<nat, nat>)
    requires Good(h, live)
    ensures h.st != 0 ==> Sound(h, live) && h.st > HEADER
    ensures h.st == 0 ==> live == map[]
  {
  }

  /** Dropping the last descriptor. */
  lemma StoredShorter(mem: map<nat, Des>, list: seq<Block>)
    requires Stored(mem, list) && Rising(list) && |list| > 1
    ensures var p := list[|list| - 2].at;
      p in mem && list[|list| - 1].at in mem && mem[list[|list| - 1].at].prev == p
      && Stored(mem[p := mem[p].(next := 0)], list[..|list| - 1])
  {
    var r := list[..|list| - 1];
    var p := list[|list| - 2].at;
    assert Cell(mem, list, |list| - 2) && Cell(mem, list, |list| - 1);
    var after := mem[p := mem[p].(next := 0)];
    forall k | 0 <= k < |r| ensures Cell(after, r, k) { assert Cell(mem, list, k); }
  }

  class Allocator {
    /** start_brk and end_brk in the kernel; brk_st and brk_ed; the heap's memory. */
    const start: nat
    var top: nat
    var brkSt: nat
    var brkEd: nat
    var mem: map<nat, Des>
    ghost var list: seq<Block>

    constructor (start: nat, top: nat)
      ensures Valid() && View() == Heap(start, top, 0, 0, [])
    {
      this.start, this.top, brkSt, brkEd, mem, list := start, top, 0, 0, map[], [];
    }

    ghost function View(): Heap
      reads this
    {
      Heap(start, top, brkSt, brkEd, list)
    }

    ghost predicate Valid()
      reads this
    {
      Stored(mem, list)
    }

    /** The system call. */
    method Brk(x: nat, pages: nat) returns (r: nat)
      modifies this`top
      ensures (top, r) == KernelBrk(start, old(top), x, pages)
    {
      var (top', ret) := KernelBrk(start, top, x, pages);
      top, r := top', ret;
    }

    /** The first part of malloc; false if it faults. */
    method FirstCall(pages: nat) returns (ok: bool)
      requires Valid()
      modifies this
      ensures Valid() && ok == Open(old(View()), pages).Some? && (ok ==> View() == Open(old(View()), pages).value)
    {
      hide KernelBrk;
      if brkSt == 0 {
        brkSt := start;
        brkEd := Brk(brkSt + HEADER, pages);
        if top < start + HEADER { return false; }
        mem := mem[start := Des(0, 0, start + HEADER)];
        list := [Block(start, start + HEADER)];
        brkSt := start;
      }
      return true;
    }

    /** The search loop: where there is room, or the last descriptor. */
    method Find(n: nat) returns (tmp: nat, ghost i: nat)
      requires Valid() && list != [] && brkSt == list[0].at && Rising(list) && list[0].at > 0
      ensures i == Search(list, n, 0) && i < |list| && tmp == list[i].at && tmp in mem
    {
      tmp, i := brkSt, 0;
      hide Add, Sub, Rising;
      assert Cell(mem, list, 0);
      while mem[tmp].next != 0
        invariant i < |list| && tmp == list[i].at && tmp in mem && mem[tmp] == Des(if i == 0 then 0 else list[i - 1].at, if i + 1 == |list| then 0 else list[i + 1].at, list[i].end)
        invariant Search(list, n, 0) == Search(list, n, i)
        decreases |list| - i
      {
        if Sub(mem[tmp].next, mem[tmp].end) > Add(n, HEADER) { return; }
        assert Cell(mem, list, i + 1);
        tmp, i := mem[tmp].next, i + 1;
      }
      NextIsNull(list, i);
    }

    function Load(p: nat): (r: Des)
      reads this`mem
    {
      if p in mem then mem[p] else Des(0, 0, 0)
    }

    /** Room behind descriptor i: a new descriptor, or the unused one itself. */
    method FillGap(tmp: nat, n: nat, ghost i: nat) returns (addr: nat)
      requires Valid() && i + 1 < |list| && tmp == list[i].at && Rising(list)
      requires list[i].at < list[i].end < list[i + 1].at
      modifies this`mem, this`list
      ensures Valid() && Done(View(), addr) == Fill(old(View()), n, i)
    {
      hide Add;
      assert Cell(mem, list, i) && Cell(mem, list, i + 1);
      var tmp2 := 0;
      var end := Add(tmp, HEADER + n);
      if mem[tmp].end > tmp + HEADER {
        ghost var mem0 := mem;
        tmp2 := mem[tmp].end;
        end := Add(tmp2, HEADER + n);
        mem := mem[tmp2 := Load(tmp2).(prev := tmp, next := mem[tmp].next)];
        mem := mem[mem[tmp2].prev := mem[mem[tmp2].prev].(next := tmp2)];
        mem := mem[mem[tmp2].next := mem[mem[tmp2].next].(prev := tmp2)];
        mem := mem[tmp2 := mem[tmp2].(end := end)];
        GapLinks(mem0, mem, list, i, Block(tmp2, end));
        StoredInsert(mem0, mem, list, i, Block(tmp2, end));
        list := Behind(list, i, Block(tmp2, end));
      } else {
        StoredUpdate(mem, list, i, end);
        mem := mem[tmp := mem[tmp].(end := end)];
        list := list[i := Block(tmp, end)];
      }
      return tmp2 + HEADER;
    }

    /** A used last descriptor gets an empty one behind it; false if its header is not mapped. */
    method AddTail(last: nat) returns (ok: bool, tmp: nat)
      requires Valid() && list != [] && last == list[|list| - 1].at && Rising(list)
      requires list[|list| - 1].at < list[|list| - 1].end
      modifies this`mem, this`list
      ensures Valid() && list != [] && tmp == list[|list| - 1].at && ok == NewTail(old(View())).Some?
      ensures ok ==> View() == NewTail(old(View())).value
    {
      assert Cell(mem, list, |list| - 1);
      tmp := last;
      if mem[tmp].end > tmp + HEADER {
        if mem[tmp].end + HEADER > top { return false, tmp; }
        ghost var mem0, i := mem, |list| - 1;
        mem := mem[tmp := mem[tmp].(next := mem[tmp].end)];
        mem := mem[mem[tmp].next := Load(mem[tmp].next).(prev := tmp)];
        tmp := mem[tmp].next;
        mem := mem[tmp := mem[tmp].(next := 0)];
        mem := mem[tmp := mem[tmp].(end := tmp + HEADER)];
        TailLinks(mem0, mem, list, Block(tmp, tmp + HEADER));
        StoredInsert(mem0, mem, list, i, Block(tmp, tmp + HEADER));
        assert Behind(list, i, Block(tmp, tmp + HEADER)) == list + [Block(tmp, tmp + HEADER)];
        list := list + [Block(tmp, tmp + HEADER)];
      }
      return true, tmp;
    }

    /** Asking the kernel for the last block. */
    method StretchTail(tmp: nat, n: nat, pages: nat) returns (addr: nat)
      requires Valid() && list != [] && tmp == list[|list| - 1].at && Rising(list)
      modifies this
      ensures Valid() && Done(View(), addr) == Stretch(old(View()), n, pages)
    {
      hide Add, KernelBrk;
      var w := Add(tmp, HEADER + n);
      brkEd := Brk(w, pages);
      if brkEd >= w {
        StoredUpdate(mem, list, |list| - 1, w);
        mem := mem[tmp := mem[tmp].(end := w)];
        list := list[|list| - 1 := Block(tmp, w)];
        return tmp + HEADER;
      }
      return 0;
    }

    /** The end of malloc, for n > 0 bytes. */
    method TakeBytes(n: nat, pages: nat, ghost live: map<nat, nat>) returns (ok: bool, addr: nat)
      requires Valid() && Sound(View(), live)
      modifies this
      ensures Valid() && ok == Take(old(View()), n, pages).Done? && (ok ==> Done(View(), addr) == Take(old(View()), n, pages))
    {
      GapFacts(View(), live, n);
      hide Sound, Search;
      var tmp, i := Find(n);
      NextCell(mem, list, i);
      addr := 0;
      if mem[tmp].next != 0 {
        addr := FillGap(tmp, n, i);
        return true, addr;
      }
      TailRises(View(), live);
      hide NewTail;
      ok, tmp := AddTail(tmp);
      if ok { addr := StretchTail(tmp, n, pages); }
    }

    /** malloc; ok is false if it faults. */
    method Malloc(size: nat, pages: nat, more: nat, ghost live: map<nat, nat>) returns (ok: bool, addr: nat)
      requires Valid() && Good(View(), live) && size < TWO_64 && Grants(View(), pages, more)
      modifies this
      ensures Valid() && ok == UserHeap.Malloc(old(View()), size, pages, more).Done?
      ensures ok ==> Done(View(), addr) == UserHeap.Malloc(old(View()), size, pages, more)
      ensures ok && !Overflows(old(View()), size) ==> Sound(View(), LiveAfter(live, size, addr))
    {
      MallocCorrect(View(), live, size, pages, more);
      OpenSound(View(), live, pages);
      hide Good, Faults, Answer, Open, Take, Overflows, LiveAfter, Round8;
      addr := 0;
      ok := FirstCall(pages);
      if !ok { return; }
      ghost var h1 := View();
      assert h1.list != [] by { SoundNotEmpty(h1, live); }
      hide Sound;
      var n := Round8(size);
      if n != 0 { ok, addr := TakeBytes(n, more, live); }
    }

    /** The descriptor behind which nothing is left goes, unless it is the only one, and brk is told
        where the heap ends now. */
    method DropLast(last: nat)
      requires Valid() && list != [] && Rising(list) && list[0].at > 0 && last == list[|list| - 1].at && last in mem
      modifies this
      ensures Valid() && old(list) != []
      ensures list == if |old(list)| > 1 then old(list)[..|old(list)| - 1] else old(list)
      ensures brkSt == old(brkSt) && list != [] && (top, brkEd) == KernelBrk(start, old(top), list[|list| - 1].end, 0)
    {
      hide KernelBrk;
      NextCell(mem, list, |list| - 1);
      var tmp := last;
      if mem[tmp].prev != 0 {
        StoredShorter(mem, list);
        tmp := mem[tmp].prev;
        mem := mem[tmp := mem[tmp].(next := 0)];
        list := list[..|list| - 1];
      }
      assert Cell(mem, list, |list| - 1);
      brkEd := Brk(mem[tmp].end, 0);
    }

    /** The descriptor of a freed block is empty. */
    method EmptyAt(tmp: nat, ghost i: nat)
      requires Valid() && i < |list| && Rising(list) && list[0].at > 0 && list[i].at == tmp
      modifies this`mem, this`list
      ensures Valid() && list == old(list)[i := Block(tmp, tmp + HEADER)] && Rising(list) && list[0].at > 0
      ensures tmp in mem && (mem[tmp].next == 0 <==> i + 1 == |list|)
    {
      assert Cell(mem, list, i);
      StoredUpdate(mem, list, i, tmp + HEADER);
      mem := mem[tmp := mem[tmp].(end := tmp + HEADER)];
      list := list[i := Block(tmp, tmp + HEADER)];
      assert Rising(list);
      NextCell(mem, list, i);
    }

    /** free of an address the caller holds, or of what malloc gave besides. */
    method Free(addr: nat, ghost live: map<nat, nat>, ghost i: nat)
      requires Valid() && Good(View(), live)
      requires if addr in live then IndexOf(View(), addr, i) else addr <= HEADER
      modifies this
      ensures Valid()
      ensures addr in live ==> View() == UserHeap.Free(old(View()), addr, i)
      ensures addr !in live ==> View() == old(View())
    {
      FreeOutside(View(), live);
      if brkSt == 0 || addr < brkSt || addr > brkEd { return; }
      SoundRises(View(), live);
      hide Good, KernelBrk, Sound;
      hide Rising, Stored;
      var tmp := addr - HEADER;
      EmptyAt(tmp, i);
      if mem[tmp].next == 0 { DropLast(tmp); }
    }
  }
}
