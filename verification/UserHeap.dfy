/** The user library's malloc and free over brk (user/lib_user.c), on the list of descriptors in
    address order. All arithmetic is that of 64-bit unsigned numbers. */
module UserHeap {
  import opened Words
  import Frames
  import Brk

  const PAGE_2M: nat := Frames.PAGE_2M

  const USER_TOP: nat := Brk.USER_TOP

  /** sizeof(mall_des): prev, next and end. */
  const HEADER: nat := 24

  /** A descriptor at address `at`; its block lies between the end of the header and `end`. */
  datatype Block = Block(at: nat, end: nat)

  /** start and top are the kernel's start_brk and end_brk of the process; st, ed and the list are
      brk_st, brk_ed and the descriptors in the heap. Before the first malloc st is 0. */
  datatype Heap = Heap(start: nat, top: nat, st: nat, ed: nat, list: seq<Block>)

  /** malloc either returns, possibly 0, or touches memory that is not there. */
  datatype Outcome = Fault | Done(heap: Heap, addr: nat)

  function Add(a: nat, b: nat): (r: nat) { (a + b) % TWO_64 }

  function Sub(a: nat, b: nat): (r: nat) { (a - b) % TWO_64 }

  /** The size malloc works with. */
  function Round8(size: nat): (r: nat) { Add(size, 7) / 8 * 8 }

  function Least(a: nat, b: nat): (r: nat) { if a < b then a else b }

  /** What brk(x) does to end_brk, and its answer. pages is how many pages the kernel manages to
      map, or to unmap when it is sent below start_brk. */
  function KernelBrk(start: nat, top: nat, x: nat, pages: nat): (r: (nat, nat))
  {
    var limit := Brk.Align2M(x);
    if limit == 0 then (top, start)
    else if limit >= top then var e := top + Least(pages, (limit - top) / PAGE_2M) * PAGE_2M; (e, e)
    else if limit >= start then (limit, limit)
    else var e := start - Least(pages, (start - limit) / PAGE_2M) * PAGE_2M; (e, e)
  }

  // ----- malloc -----

  /** The first call asks for the heap's start and for room for one descriptor. */
  function Open(h: Heap, pages: nat): (r: Option<Heap>)
  {
    if h.st != 0 then Some(h)
    else
      var (top, ed) := KernelBrk(h.start, h.top, h.start + HEADER, pages);
      if top < h.start + HEADER then None
      else Some(Heap(h.start, top, h.start, ed, [Block(h.start, h.start + HEADER)]))
  }

  predicate InUse(b: Block) { b.end > b.at + HEADER }

  /** The search loop: the first descriptor with enough room before the next one, or the last. */
  function Search(list: seq<Block>, n: nat, i: nat): (r: nat)
    decreases |list| - i
  {
    if i + 1 >= |list| || Sub(list[i + 1].at, list[i].end) > Add(n, HEADER) then i else Search(list, n, i + 1)
  }

  /** Using the room behind descriptor i. An unused descriptor is taken over, but the address
      returned is computed from tmp2, which is NULL then. */
  function Fill(h: Heap, n: nat, i: nat): (r: Outcome)
    requires i < |h.list|
  {
    var b := h.list[i];
    if InUse(b)
    then Done(h.(list := h.list[..i + 1] + [Block(b.end, Add(b.end, HEADER + n))] + h.list[i + 1..]), b.end + HEADER)
    else Done(h.(list := h.list[i := Block(b.at, Add(b.at, HEADER + n))]), HEADER)
  }

  /** A used last descriptor gets an empty one behind it, written before brk is asked for room. */
  function NewTail(h: Heap): (r: Option<Heap>)
    requires h.list != []
  {
    var b := h.list[|h.list| - 1];
    if !InUse(b) then Some(h)
    else if b.end + HEADER > h.top then None
    else Some(h.(list := h.list + [Block(b.end, b.end + HEADER)]))
  }

  /** Asking brk for the last block. */
  function Stretch(h: Heap, n: nat, pages: nat): (r: Outcome)
    requires h.list != []
  {
    var k := |h.list| - 1;
    var w := Add(h.list[k].at, HEADER + n);
    var (top, ret) := KernelBrk(h.start, h.top, w, pages);
    if ret >= w then Done(h.(top := top, ed := ret, list := h.list[k := Block(h.list[k].at, w)]), h.list[k].at + HEADER)
    else Done(h.(top := top, ed := ret), 0)
  }

  /** The rest of malloc, for n > 0 bytes. */
  function Take(h: Heap, n: nat, pages: nat): (r: Outcome)
    requires h.list != []
  {
    var i := Search(h.list, n, 0);
    if i + 1 < |h.list| then Fill(h, n, i)
    else match NewTail(h)
      case None => Fault
      case Some(h1) => Stretch(h1, n, pages)
  }

  /** malloc(size); the kernel has `pages` and `more` pages for its two calls of brk. */
  function Malloc(h: Heap, size: nat, pages: nat, more: nat): (r: Outcome)
  {
    match Open(h, pages)
    case None => Fault
    case Some(h1) => if Round8(size) == 0 || h1.list == [] then Done(h1, 0) else Take(h1, Round8(size), more)
  }

  // ----- free -----

  /** free(addr), where addr is 0, outside the heap, or the address of block i. */
  function Free(h: Heap, addr: nat, i: nat): (r: Heap)
    requires i < |h.list|
  {
    if h.st == 0 || addr < h.st || addr > h.ed then h
    else
      var list := h.list[i := Block(h.list[i].at, h.list[i].at + HEADER)];
      if i + 1 < |list| then h.(list := list)
      else
        var kept := if i > 0 then list[..i] else list;
        var (top, ed) := KernelBrk(h.start, h.top, kept[|kept| - 1].end, 0);
        h.(top := top, ed := ed, list := kept)
  }

  // ----- the invariant -----

  /** Headers and blocks follow each other without overlap. */
  ghost predicate Ordered(list: seq<Block>)
  {
    && (forall i | 0 <= i < |list| :: Formed(list[i]))
    && (forall i, j | 0 <= i < j < |list| :: list[i].end <= list[j].at)
  }

  predicate Formed(b: Block)
  {
    b.at + HEADER <= b.end && b.at % 8 == 0 && b.end % 8 == 0
  }

  /** n bytes at address a are the block of some descriptor. */
  ghost predicate Held(list: seq<Block>, a: nat, n: nat)
  {
    a >= HEADER && n > 0 && exists i :: 0 <= i < |list| && list[i] == Block(a - HEADER, a + n)
  }

  /** The four addresses the kernel and the library keep. */
  predicate Bounds(start: nat, top: nat, st: nat, ed: nat)
  {
    start > 0 && st == start && start % PAGE_2M == 0 && top % PAGE_2M == 0 && top <= USER_TOP && (ed == top || ed == st)
  }

  /** The descriptors fill the mapped heap from its start without overlap. */
  ghost predicate Listed(list: seq<Block>, st: nat, top: nat)
  {
    list != [] && list[0].at == st && Ordered(list) && list[|list| - 1].end <= top
  }

  ghost predicate Owns(list: seq<Block>, live: map<nat, nat>)
  {
    forall a | a in live :: Held(list, a, live[a])
  }

  /** live maps the addresses in the caller's hands to the sizes of their blocks. */
  ghost predicate Sound(h: Heap, live: map<nat, nat>)
  {
    Bounds(h.start, h.top, h.st, h.ed) && Listed(h.list, h.st, h.top) && Owns(h.list, live)
  }

  /** Before the first malloc. */
  ghost predicate Untouched(h: Heap)
  {
    h.start > 0 && h.start % PAGE_2M == 0 && h.top % PAGE_2M == 0 && h.start <= h.top <= USER_TOP
    && h.st == 0 && h.list == []
  }

  ghost predicate Good(h: Heap, live: map<nat, nat>)
  {
    Sound(h, live) || (Untouched(h) && live == map[])
  }

  /** The kernel has no more pages than the user half of the address space has room for. */
  predicate Grants(h: Heap, pages: nat, more: nat)
  {
    h.top + (pages + more) * PAGE_2M <= USER_TOP
  }

  /** Where the block would start if it went to the end of the heap. */
  function TailAt(h: Heap): (r: nat)
  {
    if h.list == [] then h.start
    else var b := h.list[|h.list| - 1]; if InUse(b) then b.end else b.at
  }

  /** The end of such a block is not a 64-bit number. */
  predicate Overflows(h: Heap, size: nat)
  {
    Round8(size) > 0 && TailAt(h) + HEADER + Round8(size) >= TWO_64
  }

  /** What the caller holds after malloc: a new block, unless the answer is 0 or 24. */
  function LiveAfter(live: map<nat, nat>, size: nat, addr: nat): (r: map<nat, nat>)
  {
    if addr <= HEADER then live else live[addr := Round8(size)]
  }

  // ----- what the functions do -----

  lemma KernelFacts(start: nat, top: nat, x: nat, pages: nat)
    requires start > 0 && start % PAGE_2M == 0 && top % PAGE_2M == 0 && start <= top <= USER_TOP && top + pages * PAGE_2M <= USER_TOP
    ensures var (e, ret) := KernelBrk(start, top, x, pages); var limit := Brk.Align2M(x);
      && (limit == 0 ==> e == top && ret == start) && (limit != 0 ==> ret == e)
      && (limit >= start ==> e % PAGE_2M == 0 && e <= USER_TOP)
      && (limit >= top ==> top <= e <= limit && e <= top + pages * PAGE_2M && (pages >= 1 && limit > top ==> e >= top + PAGE_2M))
      && (limit < start ==> limit <= ret)
      && (start <= limit < top ==> e == limit)
  {
  }

  /** The rounding of brk's argument: up, unless it wraps to zero. */
  lemma AlignFacts(x: nat)
    requires x < TWO_64
    ensures x == 0 || x > TWO_64 - PAGE_2M ==> Brk.Align2M(x) == 0
    ensures 0 < x <= TWO_64 - PAGE_2M ==> x <= Brk.Align2M(x) < x + PAGE_2M
  {
  }

  lemma SmallAdd(a: nat, b: nat)
    requires a + b < TWO_64
    ensures Add(a, b) == a + b
  {
  }

  lemma SmallSub(a: nat, b: nat)
    requires b <= a < TWO_64
    ensures Sub(a, b) == a - b
  {
  }

  lemma GapEnds(list: seq<Block>, i: nat)
    requires Ordered(list) && i + 1 < |list|
    ensures list[i].end <= list[i + 1].at <= list[|list| - 1].end
  {
  }

  lemma Aligned8(a: nat, n: nat)
    requires a % 8 == 0 && n % 8 == 0
    ensures (a + HEADER + n) % 8 == 0
  {
  }

  lemma {:induction false} SearchFacts(list: seq<Block>, n: nat, i: nat)
    requires Ordered(list) && i < |list| && n + HEADER < TWO_64 && list[|list| - 1].end < TWO_64
    ensures var r := Search(list, n, i);
      && i <= r < |list| && (r + 1 < |list| ==> list[r + 1].at > list[r].end + n + HEADER)
      && forall j | i <= j < r :: list[j + 1].at <= list[j].end + n + HEADER
    decreases |list| - i
  {
    hide Add, Sub, Ordered, Formed;
    SmallAdd(n, HEADER);
    if i + 1 < |list| {
      GapEnds(list, i);
      SmallSub(list[i + 1].at, list[i].end);
      if Sub(list[i + 1].at, list[i].end) <= Add(n, HEADER) { SearchFacts(list, n, i + 1); }
    }
  }

  /** The list with b behind descriptor i, and with b in its place. */
  function Behind(list: seq<Block>, i: nat, b: Block): (r: seq<Block>)
    requires i < |list|
  {
    list[..i + 1] + [b] + list[i + 1..]
  }

  lemma OrderInsert(list: seq<Block>, i: nat, b: Block)
    requires i < |list| && Ordered(list) && Formed(b) && list[i].end <= b.at
    requires i + 1 < |list| ==> b.end <= list[i + 1].at
    ensures Ordered(Behind(list, i, b))
  {
  }

  lemma ListInsert(list: seq<Block>, i: nat, b: Block, st: nat, top: nat)
    requires i < |list| && Listed(list, st, top) && Formed(b) && list[i].end <= b.at
    requires b.end <= if i + 1 < |list| then list[i + 1].at else top
    ensures Listed(Behind(list, i, b), st, top)
  {
    OrderInsert(list, i, b);
    hide Ordered;
  }

  lemma ListUpdate(list: seq<Block>, i: nat, b: Block, st: nat, top: nat, top': nat)
    requires i < |list| && Listed(list, st, top) && Formed(b) && b.at == list[i].at
    requires if i + 1 < |list| then b.end <= list[i + 1].at && top <= top' else b.end <= top'
    ensures Listed(list[i := b], st, top')
  {
  }

  lemma HigherTop(list: seq<Block>, st: nat, top: nat, top': nat)
    requires Listed(list, st, top) && top <= top'
    ensures Listed(list, st, top')
  {
  }

  lemma OwnsInsert(list: seq<Block>, i: nat, b: Block, live: map<nat, nat>)
    requires i < |list| && Owns(list, live)
    ensures Owns(Behind(list, i, b), live)
    ensures InUse(b) ==> Owns(Behind(list, i, b), live[b.at + HEADER := b.end - b.at - HEADER])
  {
    var r := Behind(list, i, b);
    assert forall k | 0 <= k < |r| :: r[k] == if k <= i then list[k] else if k == i + 1 then b else list[k - 1];
    forall a | a in live ensures Held(r, a, live[a]) {
      var k :| 0 <= k < |list| && list[k] == Block(a - HEADER, a + live[a]);
      assert r[if k <= i then k else k + 1] == list[k];
    }
    assert r[i + 1] == b;
  }

  /** Changing the end of an unused descriptor touches no block that is held. */
  lemma OwnsUpdate(list: seq<Block>, i: nat, b: Block, live: map<nat, nat>)
    requires i < |list| && Owns(list, live) && !InUse(list[i]) && b.at == list[i].at
    ensures Owns(list[i := b], live)
    ensures InUse(b) ==> Owns(list[i := b], live[b.at + HEADER := b.end - b.at - HEADER])
  {
    forall a | a in live ensures Held(list[i := b], a, live[a]) {
      var k :| 0 <= k < |list| && list[k] == Block(a - HEADER, a + live[a]);
      assert list[i := b][k] == list[k];
    }
    assert list[i := b][i] == b;
  }

  lemma ListFacts(list: seq<Block>, i: nat, st: nat, top: nat)
    requires Listed(list, st, top) && i < |list|
    ensures Formed(list[i]) && list[i].end <= list[|list| - 1].end <= top && list[i].end <= top && st <= list[i].at
    ensures i + 1 < |list| ==> list[i].end <= list[i + 1].at && list[i + 1].at < top
  {
  }

  lemma SoundParts(h: Heap, live: map<nat, nat>)
    requires Sound(h, live)
    ensures h.list != [] && h.top <= USER_TOP && h.top % PAGE_2M == 0 && h.start > 0 && h.st == h.start && h.start % PAGE_2M == 0
  {
  }

  /** A block of n bytes behind a well-formed one, or in its place. */
  lemma NextFormed(b: Block, n: nat)
    requires Formed(b) && n % 8 == 0
    ensures Formed(Block(b.end, b.end + HEADER + n)) && Formed(Block(b.at, b.at + HEADER + n))
  {
  }

  /** The empty block behind a well-formed one. */
  lemma ExactlyEmpty(b: Block)
    requires Formed(b)
    ensures Formed(Block(b.end, b.end + HEADER)) && (!InUse(b) ==> b.end == b.at + HEADER)
  {
  }

  /** A block in a gap: a new one, or the room of an unused descriptor, which nobody is told of. */
  lemma FillSound(h: Heap, live: map<nat, nat>, n: nat, i: nat)
    requires Sound(h, live) && n > 0 && n % 8 == 0 && i + 1 < |h.list|
    requires h.list[i + 1].at > h.list[i].end + n + HEADER
    ensures var r := Fill(h, n, i); var b := h.list[i];
      && r.Done? && r.heap.(list := h.list) == h && r.addr == (if InUse(b) then b.end + HEADER else HEADER)
      && Sound(r.heap, if InUse(b) then live[r.addr := n] else live)
  {
    hide Add, Bounds, Listed, Owns, Formed;
    SoundParts(h, live);
    var b := h.list[i];
    var t := if InUse(b) then b.end else b.at;
    ListFacts(h.list, i, h.st, h.top);
    SmallAdd(t, HEADER + n);
    var c := Block(t, t + HEADER + n);
    NextFormed(b, n);
    if InUse(b) {
      ListInsert(h.list, i, c, h.st, h.top);
      OwnsInsert(h.list, i, c, live);
    } else {
      ListUpdate(h.list, i, c, h.st, h.top, h.top);
      OwnsUpdate(h.list, i, c, live);
    }
  }

  lemma NewTailSound(h: Heap, live: map<nat, nat>)
    requires Sound(h, live)
    ensures NewTail(h).None? <==> InUse(h.list[|h.list| - 1]) && h.list[|h.list| - 1].end + HEADER > h.top
    ensures NewTail(h).Some? ==>
      var h1 := NewTail(h).value;
      && Sound(h1, live) && h1.(list := h.list) == h
      && h1.list[|h1.list| - 1] == Block(TailAt(h), TailAt(h) + HEADER)
  {
    hide Bounds, Listed, Owns, Formed;
    SoundParts(h, live);
    var k := |h.list| - 1;
    var b := h.list[k];
    ListFacts(h.list, k, h.st, h.top);
    ExactlyEmpty(b);
    if NewTail(h).Some? && InUse(b) {
      var t := Block(b.end, b.end + HEADER);
      ListInsert(h.list, k, t, h.st, h.top);
      OwnsInsert(h.list, k, t, live);
      assert Behind(h.list, k, t) == h.list + [t];
    }
  }

  /** The last block. Without overflow the answer is the new block, or 0 if brk gave too little;
      with it the block ends before it begins. */
  lemma StretchSound(h: Heap, live: map<nat, nat>, n: nat, more: nat)
    requires Sound(h, live) && 0 < n < TWO_64 && n % 8 == 0 && h.top + more * PAGE_2M <= USER_TOP
    requires !InUse(h.list[|h.list| - 1])
    ensures var t := h.list[|h.list| - 1].at; var r := Stretch(h, n, more);
      && r.Done? && r.heap.list != []
      && (t + HEADER + n < TWO_64 ==>
            && Sound(r.heap, if r.addr == 0 then live else live[t + HEADER := n])
            && r.addr == if KernelBrk(h.start, h.top, t + HEADER + n, more).1 < t + HEADER + n then 0 else t + HEADER)
      && (t + HEADER + n >= TWO_64 ==> !Formed(r.heap.list[|r.heap.list| - 1]))
  {
    hide Listed, Owns, KernelBrk, Add;
    SoundParts(h, live);
    var k := |h.list| - 1;
    var t := h.list[k].at;
    ListFacts(h.list, k, h.st, h.top);
    StretchEnd(h.start, h.top, t, n, more);
    var w := Add(t, HEADER + n);
    var (top, ret) := KernelBrk(h.start, h.top, w, more);
    if t + HEADER + n < TWO_64 {
      if ret >= w {
        ListUpdate(h.list, k, Block(t, w), h.st, h.top, top);
        OwnsUpdate(h.list, k, Block(t, w), live);
      } else {
        HigherTop(h.list, h.st, h.top, top);
      }
    }
  }

  lemma StretchEnd(start: nat, top: nat, t: nat, n: nat, more: nat)
    requires start > 0 && start % PAGE_2M == 0 && top % PAGE_2M == 0 && start <= t && t + HEADER <= top <= USER_TOP
    requires 0 < n < TWO_64 && n % 8 == 0 && top + more * PAGE_2M <= USER_TOP && t % 8 == 0
    ensures var w := Add(t, HEADER + n); var (e, ret) := KernelBrk(start, top, w, more);
      && (t + HEADER + n < TWO_64 ==>
            && w == t + HEADER + n && w % 8 == 0 && (ret < w ==> e >= top)
            && (ret >= w ==> w <= e) && (ret == e || ret == start) && e % PAGE_2M == 0 && e <= USER_TOP)
      && (t + HEADER + n >= TWO_64 ==> w < t + HEADER && ret >= w)
  {
    var w := Add(t, HEADER + n);
    AlignFacts(w);
    KernelFacts(start, top, w, more);
    hide KernelBrk, Brk.Align2M;
    Aligned8(t, n);
    if t + HEADER + n < TWO_64 { SmallAdd(t, HEADER + n); } else { BigAdd(t, HEADER + n); }
    hide Add;
  }

  lemma BigAdd(a: nat, b: nat)
    requires a < TWO_64 <= a + b < 2 * TWO_64
    ensures Add(a, b) == a + b - TWO_64
  {
  }

  lemma OpenSound(h: Heap, live: map<nat, nat>, pages: nat)
    requires Good(h, live) && h.top + pages * PAGE_2M <= USER_TOP
    ensures Open(h, pages).None? <==> h.st == 0 && h.top == h.start && pages == 0
    ensures Open(h, pages).Some? ==>
      var h1 := Open(h, pages).value;
      Sound(h1, live) && h1.top <= h.top + pages * PAGE_2M && TailAt(h1) == TailAt(h) && (h.st != 0 ==> h1 == h)
  {
    hide KernelBrk, Bounds, Listed, Owns;
    if h.st == 0 {
      NotOpened(h, live);
      OpenTop(h.start, h.top, pages);
      var (top, ret) := KernelBrk(h.start, h.top, h.start + HEADER, pages);
      if top >= h.start + HEADER { OpenedSound(h.start, top); }
    } else {
      Opened(h, live);
    }
  }

  lemma NotOpened(h: Heap, live: map<nat, nat>)
    requires Good(h, live) && h.st == 0
    ensures Untouched(h) && live == map[]
  {
  }

  lemma Opened(h: Heap, live: map<nat, nat>)
    requires Good(h, live) && h.st != 0
    ensures Sound(h, live)
  {
  }

  lemma OpenedSound(start: nat, top: nat)
    requires start > 0 && start % PAGE_2M == 0 && top % PAGE_2M == 0 && start % 8 == 0 && start + HEADER <= top <= USER_TOP
    ensures Sound(Heap(start, top, start, top, [Block(start, start + HEADER)]), map[])
  {
    hide Formed;
    EmptyFormed(start);
    OneListed(Block(start, start + HEADER), top);
    hide Listed;
  }

  lemma EmptyFormed(a: nat)
    requires a % 8 == 0
    ensures Formed(Block(a, a + HEADER))
  {
  }

  lemma OneListed(b: Block, top: nat)
    requires Formed(b) && b.end <= top
    ensures Listed([b], b.at, top)
  {
  }

  lemma OpenTop(start: nat, top: nat, pages: nat)
    requires start > 0 && start % PAGE_2M == 0 && top % PAGE_2M == 0 && start <= top <= USER_TOP && top + pages * PAGE_2M <= USER_TOP
    ensures var (e, ret) := KernelBrk(start, top, start + HEADER, pages);
      && e % PAGE_2M == 0 && ret == e && start <= e <= top + pages * PAGE_2M && e <= USER_TOP && start % 8 == 0
      && (e < start + HEADER <==> top == start && pages == 0)
  {
    AlignFacts(start + HEADER);
    KernelFacts(start, top, start + HEADER, pages);
    hide KernelBrk;
    var limit := Brk.Align2M(start + HEADER);
    hide Brk.Align2M;
    NextPage(start, limit);
    if top > start { NextPage(start, start + PAGE_2M); assert top >= start + PAGE_2M; }
  }

  lemma NextPage(start: nat, limit: nat)
    requires start % PAGE_2M == 0 && limit % PAGE_2M == 0 && start < limit < start + 2 * PAGE_2M
    ensures limit == start + PAGE_2M && start % 8 == 0
  {
  }

  /** When malloc touches memory that is not there: in its first call if the kernel has no page at
      all, and later when the last block is used, ends less than a header before end_brk, and no gap
      is large enough, because the new header is written before brk is called. */
  predicate Faults(h: Heap, size: nat, pages: nat)
  {
    if h.st == 0 || h.list == [] then h.top == h.start && pages == 0
    else
      var b := h.list[|h.list| - 1];
      Round8(size) > 0 && Search(h.list, Round8(size), 0) + 1 >= |h.list| && InUse(b) && b.end + HEADER > h.top
  }

  // ----- malloc is right exactly when nothing overflows -----

  /** Which answer malloc gives, from the heap after the first call's preparations. */
  ghost predicate Answer(h: Heap, n: nat, more: nat, addr: nat)
  {
    var i := Search(h.list, n, 0);
    if n == 0 then addr == 0
    else if i + 1 < |h.list| then addr == if InUse(h.list[i]) then h.list[i].end + HEADER else HEADER
    else addr == if KernelBrk(h.start, h.top, TailAt(h) + HEADER + n, more).1 < TailAt(h) + HEADER + n then 0
                 else TailAt(h) + HEADER
  }

  lemma TakeSound(h: Heap, live: map<nat, nat>, n: nat, more: nat)
    requires Sound(h, live) && 0 < n < TWO_64 && n % 8 == 0 && h.top + more * PAGE_2M <= USER_TOP
    requires TailAt(h) + HEADER + n < TWO_64
    ensures var r := Take(h, n, more); var b := h.list[|h.list| - 1];
      && (r.Fault? <==> Search(h.list, n, 0) + 1 >= |h.list| && InUse(b) && b.end + HEADER > h.top)
      && (r.Done? ==> Answer(h, n, more, r.addr) && Sound(r.heap, if r.addr <= HEADER then live else live[r.addr := n]))
  {
    hide Stretch, Fill, NewTail, Add, Owns, Listed, Search;
    SoundParts(h, live);
    SearchInside(h.list, n, 0);
    ListFacts(h.list, |h.list| - 1, h.st, h.top);
    SearchStops(h.list, n, h.st, h.top);
    var i := Search(h.list, n, 0);
    if i + 1 < |h.list| {
      ListFacts(h.list, i, h.st, h.top);
      FillSound(h, live, n, i);
    } else {
      NewTailSound(h, live);
      match NewTail(h) {
        case None =>
        case Some(h1) => StretchSound(h1, live, n, more);
      }
    }
  }

  lemma TooLargeForGaps(h: Heap, n: nat)
    requires Bounds(h.start, h.top, h.st, h.ed) && Listed(h.list, h.st, h.top)
    requires n < TWO_64 && TailAt(h) + HEADER + n >= TWO_64
    ensures var i := Search(h.list, n, 0); i < |h.list| && (i + 1 == |h.list| || n + HEADER >= TWO_64) && h.list[i].end < TWO_64 && h.list[i].at < TWO_64
  {
    ListFacts(h.list, |h.list| - 1, h.st, h.top);
    SearchInside(h.list, n, 0);
    var i := Search(h.list, n, 0);
    ListFacts(h.list, i, h.st, h.top);
    if n + HEADER < TWO_64 { SearchFacts(h.list, n, 0); }
  }

  lemma FillWraps(h: Heap, n: nat, i: nat)
    requires i < |h.list| && h.list[i].end < TWO_64 && h.list[i].at < TWO_64 && n < TWO_64 <= n + HEADER
    ensures var r := Fill(h, n, i); r.Done? && exists k :: 0 <= k < |r.heap.list| && !Formed(r.heap.list[k])
  {
    var b := h.list[i];
    var t := if InUse(b) then b.end else b.at;
    Wraps(t, HEADER + n);
    hide Add;
    var r := Fill(h, n, i);
    assert r.heap.list[if InUse(b) then i + 1 else i] == Block(t, Add(t, HEADER + n));
  }

  /** Writing 64-bit sums that do not fit leaves a block that ends before it begins. */
  lemma TakeUnsound(h: Heap, live: map<nat, nat>, n: nat, more: nat)
    requires Sound(h, live) && 0 < n < TWO_64 && n % 8 == 0 && h.top + more * PAGE_2M <= USER_TOP
    requires TailAt(h) + HEADER + n >= TWO_64
    ensures var r := Take(h, n, more); r.Done? ==> exists i :: 0 <= i < |r.heap.list| && !Formed(r.heap.list[i])
  {
    TooLargeForGaps(h, n);
    hide Stretch, NewTail, Search, Fill, Listed, Owns, Bounds;
    var i := Search(h.list, n, 0);
    if i + 1 < |h.list| {
      FillWraps(h, n, i);
    } else {
      NewTailSound(h, live);
      match NewTail(h) {
        case None =>
        case Some(h1) => StretchSound(h1, live, n, more);
      }
    }
  }

  lemma {:induction false} SearchInside(list: seq<Block>, n: nat, i: nat)
    requires i < |list|
    ensures var r := Search(list, n, i);
      i <= r < |list| && (r + 1 < |list| ==> Sub(list[r + 1].at, list[r].end) > Add(n, HEADER))
    decreases |list| - i
  {
    hide Add, Sub;
    if i + 1 < |list| && Sub(list[i + 1].at, list[i].end) <= Add(n, HEADER) { SearchInside(list, n, i + 1); }
  }

  lemma Wraps(a: nat, b: nat)
    requires a < TWO_64 <= b < TWO_64 + HEADER
    ensures Add(a, b) < a + HEADER
  {
  }

  lemma HeldInUse(list: seq<Block>, live: map<nat, nat>, a: nat)
    requires Owns(list, live) && a in live
    ensures exists k :: 0 <= k < |list| && list[k].at + HEADER == a && InUse(list[k])
  {
  }

  /** An address is new if no used descriptor is in front of it. */
  lemma NotHeld(list: seq<Block>, live: map<nat, nat>, a: nat)
    requires Owns(list, live) && forall k | 0 <= k < |list| :: list[k].at + HEADER == a ==> !InUse(list[k])
    ensures a !in live
  {
  }

  /** The search ends at a gap or at the last descriptor. */
  lemma SearchStops(list: seq<Block>, n: nat, st: nat, top: nat)
    requires Listed(list, st, top) && n + HEADER < TWO_64 && list[|list| - 1].end < TWO_64
    ensures var i := Search(list, n, 0); i + 1 < |list| ==> list[i + 1].at > list[i].end + n + HEADER
  {
    SearchFacts(list, n, 0);
  }

  lemma InListOrder(list: seq<Block>, st: nat, top: nat, i: nat, k: nat)
    requires Listed(list, st, top) && i < |list| && k < |list|
    ensures list[i].at + HEADER <= list[i].end && list[k].at + HEADER <= list[k].end
    ensures (i < k ==> list[i].end <= list[k].at) && (k < i ==> list[k].end <= list[i].at)
  {
    assert Formed(list[i]) && Formed(list[k]);
  }

  lemma NewAddress(h: Heap, live: map<nat, nat>, n: nat, more: nat, addr: nat)
    requires Sound(h, live) && 0 < n < TWO_64 && TailAt(h) + HEADER + n < TWO_64 && Answer(h, n, more, addr)
    ensures addr > HEADER ==> addr !in live && addr >= h.st + HEADER
  {
    hide Search, KernelBrk, Bounds, Listed, Owns, Formed;
    SoundParts(h, live);
    SearchInside(h.list, n, 0);
    var i := Search(h.list, n, 0);
    ListFacts(h.list, i, h.st, h.top);
    SearchStops(h.list, n, h.st, h.top);
    if addr > HEADER {
      forall k | 0 <= k < |h.list| ensures h.list[k].at + HEADER == addr ==> !InUse(h.list[k]) {
        InListOrder(h.list, h.st, h.top, k, i);
        if i + 1 < |h.list| { InListOrder(h.list, h.st, h.top, k, i + 1); }
      }
      NotHeld(h.list, live, addr);
    }
  }

  lemma RoundFacts(size: nat)
    requires size < TWO_64
    ensures Round8(size) < TWO_64 && Round8(size) % 8 == 0 && (Round8(size) > 0 ==> size <= Round8(size) < size + 8)
    ensures Round8(size) == 0 <==> size == 0 || size + 7 >= TWO_64
  {
    if size + 7 < TWO_64 { SmallAdd(size, 7); } else { BigAdd(size, 7); }
    hide Add;
    Floor8(Add(size, 7));
  }

  lemma Floor8(x: nat)
    ensures x / 8 * 8 <= x < x / 8 * 8 + 8 && x / 8 * 8 % 8 == 0 && (x < 8 ==> x / 8 * 8 == 0)
  {
  }

  lemma HeldFacts(h: Heap, live: map<nat, nat>, a: nat)
    requires Sound(h, live) && a in live
    ensures live[a] > 0 && a % 8 == 0 && h.st + HEADER <= a && a + live[a] <= h.top
  {
    hide Bounds, Listed, Formed;
    assert Held(h.list, a, live[a]);
    hide Owns;
    var k :| 0 <= k < |h.list| && h.list[k] == Block(a - HEADER, a + live[a]);
    ListFacts(h.list, k, h.st, h.top);
    StartAligned(h.list[k]);
  }

  lemma StartAligned(b: Block)
    requires Formed(b)
    ensures (b.at + HEADER) % 8 == 0
  {
  }

  lemma Malformed(h: Heap, live: map<nat, nat>)
    requires exists i :: 0 <= i < |h.list| && !Formed(h.list[i])
    ensures !Sound(h, live)
  {
  }

  lemma OpenFaults(h: Heap, live: map<nat, nat>, size: nat, pages: nat)
    requires Good(h, live) && Open(h, pages).Some? && (h.st == 0 ==> h.top != h.start || pages != 0)
    ensures var h1 := Open(h, pages).value;
      h1.list != [] && var b := h1.list[|h1.list| - 1];
      (Faults(h, size, pages) <==>
        Round8(size) > 0 && Search(h1.list, Round8(size), 0) + 1 >= |h1.list| && InUse(b) && b.end + HEADER > h1.top)
  {
  }

  lemma TakeDone(h: Heap, live: map<nat, nat>, n: nat, more: nat)
    requires Sound(h, live) && 0 < n < TWO_64 && n % 8 == 0 && h.top + more * PAGE_2M <= USER_TOP
    ensures var r := Take(h, n, more);
      && (r.Done? ==> ((exists now :: Sound(r.heap, now)) <==> TailAt(h) + HEADER + n < TWO_64))
      && (r.Done? && TailAt(h) + HEADER + n < TWO_64 ==>
            && Answer(h, n, more, r.addr) && Sound(r.heap, if r.addr <= HEADER then live else live[r.addr := n])
            && (r.addr > HEADER ==> r.addr !in live && r.addr % 8 == 0))
  {
    assert h.list != [];
    hide Take, Answer, Sound, KernelBrk, TailAt;
    var r := Take(h, n, more);
    if TailAt(h) + HEADER + n < TWO_64 {
      TakeSound(h, live, n, more);
      if r.Done? {
        NewAddress(h, live, n, more, r.addr);
        if r.addr > HEADER { HeldFacts(r.heap, live[r.addr := n], r.addr); }
      }
    } else {
      TakeUnsound(h, live, n, more);
      forall now: map<nat, nat> | r.Done? ensures !Sound(r.heap, now) { Malformed(r.heap, now); }
    }
  }

  /** malloc in any heap a program can have. It faults only where Faults says. The heap it leaves is
      sound exactly if the last address it might need is a 64-bit number; then whoever gets an
      address other than 0 and 24 has a new block of at least the size asked for. */
  lemma MallocCorrect(h: Heap, live: map<nat, nat>, size: nat, pages: nat, more: nat)
    requires size < TWO_64 && Grants(h, pages, more) && Good(h, live)
    ensures Open(h, pages).None? ==> h.st == 0 && h.top == h.start && pages == 0
    ensures var r := Malloc(h, size, pages, more);
      && (!Overflows(h, size) ==> (r.Fault? <==> Faults(h, size, pages)))
      && (r.Done? ==> Open(h, pages).Some? && ((exists now :: Sound(r.heap, now)) <==> !Overflows(h, size)))
      && (r.Done? && !Overflows(h, size) ==>
            && Sound(r.heap, LiveAfter(live, size, r.addr)) && Answer(Open(h, pages).value, Round8(size), more, r.addr)
            && (r.addr > HEADER ==> r.addr !in live && r.addr % 8 == 0 && size <= Round8(size) < size + 8))
  {
    OpenSound(h, live, pages);
    var n := Round8(size);
    RoundFacts(size);
    if Open(h, pages).Some? {
      var h1 := Open(h, pages).value;
      OpenFaults(h, live, size, pages);
      hide Open, Take, Answer, Sound, Good, Faults, KernelBrk, TailAt, Round8;
      if n > 0 {
        TakeDone(h1, live, n, more);
        if TailAt(h1) + HEADER + n < TWO_64 { TakeSound(h1, live, n, more); }
      }
    }
  }

  /** How much of the address space malloc takes: the first call leaves one page, and no call moves
      end_brk up beyond the page in which the new block ends. */
  lemma EndOfHeap(h: Heap, live: map<nat, nat>, size: nat, pages: nat, more: nat)
    requires size < TWO_64 && Grants(h, pages, more) && Good(h, live) && !Overflows(h, size)
    ensures var r := Malloc(h, size, pages, more);
      r.Done? ==>
        && Open(h, pages).Some?
        && var h1 := Open(h, pages).value;
           && h1.top == (if h.st == 0 then h.start + PAGE_2M else h.top)
           && (r.heap.top <= h1.top || r.heap.top < TailAt(h) + HEADER + Round8(size) + PAGE_2M)
  {
    hide Take, KernelBrk, Sound, Good, Round8, TailAt;
    OpenSound(h, live, pages);
    RoundFacts(size);
    if Open(h, pages).Some? {
      FirstPage(h, live, pages);
      if Round8(size) > 0 { TakeEnd(Open(h, pages).value, live, Round8(size), more); }
    }
  }

  lemma FirstPage(h: Heap, live: map<nat, nat>, pages: nat)
    requires Good(h, live) && h.top + pages * PAGE_2M <= USER_TOP && Open(h, pages).Some?
    ensures Open(h, pages).value.top == if h.st == 0 then h.start + PAGE_2M else h.top
  {
    hide KernelBrk, Listed, Owns;
    if h.st == 0 {
      NotOpened(h, live);
      OpenTop(h.start, h.top, pages);
      AlignFacts(h.start + HEADER);
      KernelFacts(h.start, h.top, h.start + HEADER, pages);
      OnePageUp(h.start, Brk.Align2M(h.start + HEADER));
    }
  }

  lemma OnePageUp(start: nat, limit: nat)
    requires start % PAGE_2M == 0 && limit % PAGE_2M == 0 && start < limit < start + HEADER + PAGE_2M
    ensures limit == start + PAGE_2M
  {
    NextPage(start, limit);
  }

  lemma TakeEnd(h: Heap, live: map<nat, nat>, n: nat, more: nat)
    requires Sound(h, live) && 0 < n < TWO_64 && n % 8 == 0 && h.top + more * PAGE_2M <= USER_TOP
    requires TailAt(h) + HEADER + n < TWO_64
    ensures var r := Take(h, n, more);
      r.Done? ==> r.heap.top <= h.top || r.heap.top < TailAt(h) + HEADER + n + PAGE_2M
  {
    hide Listed, Owns, KernelBrk, Add, Search;
    SoundParts(h, live);
    var w := TailAt(h) + HEADER + n;
    SmallAdd(TailAt(h), HEADER + n);
    AlignFacts(w);
    TopAbove(h, live);
    KernelFacts(h.start, h.top, w, more);
    TailOfNew(h);
    hide Brk.Align2M, NewTail;
  }

  lemma TailOfNew(h: Heap)
    requires h.list != []
    ensures NewTail(h).Some? ==>
      var h1 := NewTail(h).value;
      h1.list != [] && h1.list[|h1.list| - 1].at == TailAt(h) && h1.top == h.top && h1.start == h.start
  {
  }

  lemma TopAbove(h: Heap, live: map<nat, nat>)
    requires Sound(h, live)
    ensures h.start <= h.top && h.start <= TailAt(h)
  {
    ListFacts(h.list, 0, h.st, h.top);
    ListFacts(h.list, |h.list| - 1, h.st, h.top);
  }

  /** Two blocks in the caller's hands never overlap, nor does one reach over any header. */
  lemma LiveBlocksApart(h: Heap, live: map<nat, nat>, a: nat)
    requires Sound(h, live) && a in live
    ensures h.st + HEADER <= a && a + live[a] <= h.top && live[a] > 0
    ensures forall i | 0 <= i < |h.list| :: h.list[i].at + HEADER <= a || a + live[a] <= h.list[i].at
    ensures forall b | b in live && b != a :: a + live[a] <= b - HEADER || b + live[b] <= a - HEADER
  {
    hide Bounds, Listed, Formed;
    HeldFacts(h, live, a);
    assert Held(h.list, a, live[a]);
    var k :| 0 <= k < |h.list| && h.list[k] == Block(a - HEADER, a + live[a]);
    forall i | 0 <= i < |h.list| ensures h.list[i].at + HEADER <= a || a + live[a] <= h.list[i].at {
      InListOrder(h.list, h.st, h.top, i, k);
    }
    forall b | b in live && b != a ensures a + live[a] <= b - HEADER || b + live[b] <= a - HEADER {
      assert Held(h.list, b, live[b]);
      var j :| 0 <= j < |h.list| && h.list[j] == Block(b - HEADER, b + live[b]);
      InListOrder(h.list, h.st, h.top, j, k);
    }
  }

  // ----- free -----

  /** Index of the descriptor in front of address a. */
  ghost predicate IndexOf(h: Heap, a: nat, i: nat)
  {
    i < |h.list| && h.list[i].at + HEADER == a
  }

  /** Forgetting a block and emptying its descriptor. */
  lemma OwnsFreed(list: seq<Block>, i: nat, live: map<nat, nat>, a: nat)
    requires Owns(list, live) && i < |list| && list[i].at + HEADER == a
    ensures Owns(list[i := Block(list[i].at, a)], live - {a})
    ensures i == |list| - 1 ==> Owns(list[..i], live - {a})
  {
    forall c | c in live - {a} ensures Held(list[i := Block(list[i].at, a)], c, live[c]) && (i == |list| - 1 ==> Held(list[..i], c, live[c])) {
      assert Held(list, c, live[c]);
      var k :| 0 <= k < |list| && list[k] == Block(c - HEADER, c + live[c]);
      assert list[i := Block(list[i].at, a)][k] == list[k];
      if i == |list| - 1 { assert list[..i][k] == list[k]; }
    }
  }

  /** free of a block the caller holds. Unless the address is above brk_ed it is the caller's no more
      and nobody else's block changes; if it was the last one, end_brk goes down to the first page
      boundary above what is left. */
  lemma FreeCorrect(h: Heap, live: map<nat, nat>, a: nat, i: nat)
    requires Sound(h, live) && a in live && IndexOf(h, a, i)
    ensures var r := Free(h, a, i);
      && Sound(r, live - {a}) && (a > h.ed ==> r == h)
      && (a <= h.ed ==>
            && r.ed == r.top
            && (forall n :: !Held(r.list, a, n))
            && (i + 1 < |h.list| ==> r.top == h.top && r.list == h.list[i := Block(a - HEADER, a)])
            && (i + 1 == |h.list| ==>
                  && r.list == (if i == 0 then [Block(a - HEADER, a)] else h.list[..i])
                  && r.top <= h.top && r.list[|r.list| - 1].end <= r.top < r.list[|r.list| - 1].end + PAGE_2M))
  {
    HeldFacts(h, live, a);
    if a <= h.ed {
      if i + 1 == |h.list| {
        Nobody(h.list, i, a, Free(h, a, i).list) by { FreeLast(h, live, a, i); }
        hide Sound, Listed, Bounds, Owns, KernelBrk, Held;
        FreeLast(h, live, a, i);
      } else {
        Nobody(h.list, i, a, Free(h, a, i).list);
        FreeMiddle(h, live, a, i);
      }
    } else {
      hide Bounds, Listed, KernelBrk;
      assert forall c | c in live - {a} :: Held(h.list, c, live[c]);
    }
  }

  lemma FreeMiddle(h: Heap, live: map<nat, nat>, a: nat, i: nat)
    requires Sound(h, live) && a in live && IndexOf(h, a, i) && i + 1 < |h.list| && h.st <= a <= h.ed
    ensures var r := Free(h, a, i);
      Sound(r, live - {a}) && r == h.(list := h.list[i := Block(a - HEADER, a)]) && r.ed == r.top
  {
    hide Bounds, KernelBrk, Owns, Held, Listed, Formed;
    SoundParts(h, live);
    Ends(h, live);
    ListFacts(h.list, i, h.st, h.top);
    OwnsFreed(h.list, i, live, a);
    EmptiedFormed(h.list[i]);
    ListUpdate(h.list, i, Block(a - HEADER, a), h.st, h.top, h.top);
  }

  lemma Ends(h: Heap, live: map<nat, nat>)
    requires Sound(h, live)
    ensures h.ed == h.top || h.ed == h.st
  {
  }

  lemma EmptiedFormed(b: Block)
    requires Formed(b)
    ensures Formed(Block(b.at, b.at + HEADER)) && b.at + HEADER <= b.end
  {
  }

  lemma FreeLast(h: Heap, live: map<nat, nat>, a: nat, i: nat)
    requires Sound(h, live) && a in live && IndexOf(h, a, i) && i + 1 == |h.list| && h.st <= a <= h.ed
    ensures var r := Free(h, a, i);
      && Sound(r, live - {a}) && r.ed == r.top
      && r.list == (if i == 0 then [Block(a - HEADER, a)] else h.list[..i])
      && r.top <= h.top && r.list[|r.list| - 1].end <= r.top < r.list[|r.list| - 1].end + PAGE_2M
  {
    var list := h.list[i := Block(a - HEADER, a)];
    var kept := if i > 0 then h.list[..i] else [Block(a - HEADER, a)];
    assert kept == if i > 0 then list[..i] else list;
    KeptFacts(h.list, i, a, h.st, h.top);
    OwnsFreed(h.list, i, live, a);
    hide Listed, Owns, Held;
    FreeTop(h.start, h.top, kept[|kept| - 1].end);
    hide KernelBrk;
    KeptListed(h.list, i, a, h.st, h.top, KernelBrk(h.start, h.top, kept[|kept| - 1].end, 0).0);
  }

  lemma KeptFacts(list: seq<Block>, i: nat, a: nat, st: nat, top: nat)
    requires Listed(list, st, top) && i + 1 == |list| && list[i].at + HEADER == a
    ensures var end := if i > 0 then list[i - 1].end else a; st < end <= top
  {
  }

  lemma KeptListed(list: seq<Block>, i: nat, a: nat, st: nat, top: nat, top': nat)
    requires Listed(list, st, top) && i + 1 == |list| && list[i].at + HEADER == a
    requires (if i > 0 then list[i - 1].end else a) <= top'
    ensures Listed(if i > 0 then list[..i] else [Block(a - HEADER, a)], st, top')
  {
  }

  /** Once descriptor i is emptied or gone, no block starts at a. */
  lemma Nobody(list: seq<Block>, i: nat, a: nat, r: seq<Block>)
    requires Ordered(list) && i < |list| && list[i].at + HEADER == a
    requires r == list[i := Block(list[i].at, a)] || r == list[..i] || r == [Block(list[i].at, a)]
    ensures forall n :: !Held(r, a, n)
  {
  }

  lemma FreeTop(start: nat, top: nat, end: nat)
    requires start > 0 && start % PAGE_2M == 0 && top % PAGE_2M == 0 && start < end <= top <= USER_TOP
    ensures var (e, ret) := KernelBrk(start, top, end, 0); e == ret && e % PAGE_2M == 0 && end <= e <= top && e < end + PAGE_2M
  {
  }

  // ----- any sequence of calls -----

  datatype Call = CallMalloc(size: nat, pages: nat, more: nat) | CallFree(addr: nat)

  /** The first descriptor in front of address a, or the last one if there is none. */
  function Before(list: seq<Block>, a: nat, k: nat): (r: nat)
    decreases |list| - k
  {
    if k + 1 >= |list| || list[k].at + HEADER == a then k else Before(list, a, k + 1)
  }

  /** The heap and the caller's blocks after a call; None if it faults. */
  function Serve(h: Heap, live: map<nat, nat>, c: Call): (r: Option<(Heap, map<nat, nat>)>)
  {
    match c
    case CallMalloc(size, pages, more) =>
      (match Malloc(h, size, pages, more)
       case Fault => None
       case Done(h1, addr) => Some((h1, LiveAfter(live, size, addr))))
    case CallFree(a) =>
      if a in live && Before(h.list, a, 0) < |h.list| then Some((Free(h, a, Before(h.list, a, 0)), live - {a})) else Some((h, live))
  }

  /** The caller frees only what it holds, 0 or 24; the sizes do not overflow. */
  predicate Fair(h: Heap, live: map<nat, nat>, c: Call)
  {
    match c
    case CallMalloc(size, pages, more) => size < TWO_64 && Grants(h, pages, more) && !Overflows(h, size)
    case CallFree(a) => a in live || a == 0 || a == HEADER
  }

  ghost predicate Leads(h: Heap, live: map<nat, nat>, calls: seq<Call>, h': Heap, live': map<nat, nat>)
    decreases |calls|
  {
    if calls == [] then h' == h && live' == live
    else
      && Fair(h, live, calls[0]) && Serve(h, live, calls[0]).Some?
      && Leads(Serve(h, live, calls[0]).value.0, Serve(h, live, calls[0]).value.1, calls[1..], h', live')
  }

  lemma {:induction false} BeforeFinds(list: seq<Block>, a: nat, k: nat, i: nat)
    requires k <= i < |list| && list[i].at + HEADER == a
    ensures var r := Before(list, a, k); r < |list| && list[r].at + HEADER == a
    decreases |list| - k
  {
    if k + 1 < |list| && list[k].at + HEADER != a { BeforeFinds(list, a, k + 1, i); }
  }

  lemma ServeSound(h: Heap, live: map<nat, nat>, c: Call)
    requires Good(h, live) && Fair(h, live, c) && Serve(h, live, c).Some?
    ensures Good(Serve(h, live, c).value.0, Serve(h, live, c).value.1)
  {
    hide Sound, Untouched, Malloc, Free, Overflows;
    match c
    case CallMalloc(size, pages, more) => MallocCorrect(h, live, size, pages, more);
    case CallFree(a) =>
      if a in live {
        HeldIndex(h, live, a);
        var i := Before(h.list, a, 0);
        FreeCorrect(h, live, a, i);
      }
  }

  lemma HeldIndex(h: Heap, live: map<nat, nat>, a: nat)
    requires Good(h, live) && a in live
    ensures Sound(h, live) && IndexOf(h, a, Before(h.list, a, 0))
  {
    HeldInUse(h.list, live, a);
    var k :| 0 <= k < |h.list| && h.list[k].at + HEADER == a && InUse(h.list[k]);
    BeforeFinds(h.list, a, 0, k);
  }

  /** After any sequence of calls the heap is in order, and no two blocks the caller holds overlap. */
  lemma {:induction false} CallsSound(h: Heap, live: map<nat, nat>, calls: seq<Call>, h': Heap, live': map<nat, nat>)
    requires Leads(h, live, calls, h', live') && Good(h, live)
    ensures Good(h', live')
    ensures forall a, b | a in live' && b in live' && a != b :: a + live'[a] <= b - HEADER || b + live'[b] <= a - HEADER
    decreases |calls|
  {
    hide Good, Serve, Fair;
    if calls == [] {
      forall a, b | a in live && b in live && a != b ensures a + live[a] <= b - HEADER || b + live[b] <= a - HEADER {
        HeldIndex(h, live, a);
        LiveBlocksApart(h, live, a);
      }
    } else {
      ServeSound(h, live, calls[0]);
      CallsSound(Serve(h, live, calls[0]).value.0, Serve(h, live, calls[0]).value.1, calls[1..], h', live');
    }
  }

  // ----- two programs that go wrong -----

  const START: nat := 0xA0_0000

  /** A process before its first malloc. */
  const FRESH: Heap := Heap(START, START, 0, 0, [])

  function OneBlock(): (r: Heap) { Heap(START, START + PAGE_2M, START, START + PAGE_2M, [Block(START, START + 88)]) }

  function TwoBlocks(): (r: Heap)
  {
    OneBlock().(list := [Block(START, START + 88), Block(START + 88, START + 120)])
  }

  lemma FirstMalloc()
    ensures Malloc(FRESH, 64, 1, 0) == Done(OneBlock(), START + 24)
  {
    hide Open, Stretch, Round8;
    FirstOpen();
    FirstStretch();
  }

  lemma FirstOpen()
    ensures Round8(64) == 64 && Open(FRESH, 1) == Some(OneBlock().(list := [Block(START, START + HEADER)]))
  {
    assert KernelBrk(START, START, START + HEADER, 1) == (START + PAGE_2M, START + PAGE_2M);
  }

  lemma FirstStretch()
    ensures Stretch(OneBlock().(list := [Block(START, START + HEADER)]), 64, 0) == Done(OneBlock(), START + HEADER)
  {
    assert KernelBrk(START, START + PAGE_2M, START + 88, 0) == (START + PAGE_2M, START + PAGE_2M);
  }

  lemma SecondMalloc()
    ensures Malloc(OneBlock(), 8, 0, 0) == Done(TwoBlocks(), START + 112)
  {
    assert Malloc(OneBlock(), 8, 0, 0).heap.list == TwoBlocks().list;
  }

  lemma ThirdMalloc()
    ensures TwoBlocks().list != []
    ensures var h := Free(TwoBlocks(), START + 24, 0);
      Malloc(h, 8, 0, 0) == Done(h.(list := [Block(START, START + 32), Block(START + 88, START + 120)]), 24)
  {
  }

  /** malloc(64), malloc(8), free of the first, malloc(8): the last call takes the first block again
      and answers 24. */
  lemma ReusedBlockIsLost()
    ensures Malloc(FRESH, 64, 1, 0).Done? && Malloc(Malloc(FRESH, 64, 1, 0).heap, 8, 0, 0).Done?
    ensures var two := Malloc(Malloc(FRESH, 64, 1, 0).heap, 8, 0, 0).heap;
      two.list != [] && (var h := Free(two, START + 24, 0);
                         Malloc(h, 8, 0, 0) == Done(h.(list := [Block(START, START + 32), Block(START + 88, START + 120)]), 24))
  {
    FirstMalloc();
    SecondMalloc();
    ThirdMalloc();
    hide Malloc;
  }

  /** A first block that fills its page to the end makes the second malloc write beyond it. */
  lemma FullPageFaults()
    ensures var r1 := Malloc(FRESH, PAGE_2M - HEADER, 1, 0); r1.Done? && Malloc(r1.heap, 8, 0, 1) == Fault
  {
    var r1 := Malloc(FRESH, PAGE_2M - HEADER, 1, 0);
    assert r1.heap.list == [Block(START, START + PAGE_2M)];
  }
}
