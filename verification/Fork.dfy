/** The address-space part of do_fork (Kernel/Task.c), without CLONE_VM, which no caller passes. */
module Fork {
  import opened Words
  import opened Sequences
  import opened Frames
  import opened Slabs
  import opened SlabOwnership
  import opened SlabCalls
  import opened Paging
  import opened PagingSteps
  import opened PagingMaps
  import opened KernelHalf
  import opened Brk

  const STACK_SIZE: nat := 32768
  const MM_BYTES: nat := 96
  const IMAGE: nat := 0x80_0000
  const HEAP: nat := 0xA0_0000

  /** ForkFailed: do_unfork ran. */
  datatype ForkRes = ForkCrash | ForkFailed | Forked(mem: Memory, mm: MM)

  predicate Usable(m: Mem) { |m.caches| == CLASSES && |m.fr.refs| == m.fr.NoPage() }

  /** alloc_pages and pagetable_init of one page. */
  function BackPage(s: Memory, root: nat, v: nat, attr: Attr): (r: InitRes)
    requires Usable(s.m) && Alloc(s.m.fr, 1, 0).Run?
  {
    var a := Alloc(s.m.fr, 1, 0);
    if |a.state.refs| != a.state.NoPage() then Crashed
    else PagetableInit(s.(m := s.m.(fr := a.state)), root, a.start * PAGE_2M, v, 1, attr)
  }

  /** The task structure, the mm_struct and the PML4 come from kmalloc. */
  function NewSpace(s: Memory, parent: nat): (r: Option<(Memory, nat)>)
    requires Usable(s.m)
  {
    match Kmalloc(s.m, STACK_SIZE)
    case Got(m1, _) =>
      if !Usable(m1) then None
      else (match Kmalloc(m1, MM_BYTES)
        case Got(m2, _) =>
          if !Usable(m2) then None
          else (match Kmalloc(m2, PAGE_4K)
            case Got(m3, a) =>
              if a < PAGE_OFFSET then None
              else Some((Memory(m3, Inherit(s.pt, parent, a - PAGE_OFFSET)), a - PAGE_OFFSET))
            case _ => None)
        case _ => None)
    case _ => None
  }

  /** The pages of the new space: the image page, and one heap page if the parent copied has a
      heap. With a path the heap starts empty; without one, start_brk and end_brk are the
      parent's. */
  function Populate(s: Memory, root: nat, parent: MM, path: bool, attr: Attr): (r: ForkRes)
    requires Usable(s.m)
  {
    if !Alloc(s.m.fr, 1, 0).Run? then ForkFailed
    else match BackPage(s, root, IMAGE, attr)
      case Mapped(s1) =>
        if path then Forked(s1, MM(root, HEAP, HEAP))
        else if parent.end == parent.start then Forked(s1, MM(root, parent.start, parent.end))
        else if !Usable(s1.m) then ForkCrash
        else if !Alloc(s1.m.fr, 1, 0).Run? then ForkFailed
        else (match BackPage(s1, root, HEAP, attr)
          case Mapped(s2) => Forked(s2, MM(root, parent.start, parent.end))
          case _ => ForkCrash)
      case _ => ForkCrash
  }

  function DoFork(s: Memory, parent: MM, path: bool, attr: Attr): (r: ForkRes)
    requires Usable(s.m)
  {
    match NewSpace(s, parent.root)
    case None => ForkCrash
    case Some((s1, root)) => if !Usable(s1.m) then ForkCrash else Populate(s1, root, parent, path, attr)
  }

  // ----- the new space -----

  lemma HousedThrough(s: Memory, o: Owners, m': Mem, o': Owners, i: nat, a: nat)
    requires Housed(s, o) && HandedOut(s.m, o, i, m', o', a)
    ensures Housed(s.(m := m'), o')
  {
  }

  lemma KmallocKeepsPaging(s: Memory, l: Levels, o: Owners, size: nat) returns (o': Owners)
    requires Usable(s.m) && size <= MAX_BLOCK && PagingInv(s, l, o)
    ensures Kmalloc(s.m, size).Got? || Kmalloc(s.m, size).Fault?
    ensures var r := Kmalloc(s.m, size);
      r.Got? ==> && HandedOut(s.m, o, ClassFor(size, 0), r.mem, o', r.addr)
                 && PagingInv(s.(m := r.mem), l, o') && Usable(r.mem)
  {
    hide Inv, Tree, Housed, Kmalloc, FramesNeeded, BlockOf;
    o' := KmallocCorrect(s.m, o, size);
    if Kmalloc(s.m, size).Got? {
      HousedThrough(s, o, Kmalloc(s.m, size).mem, o', ClassFor(size, 0), Kmalloc(s.m, size).addr);
      InvCaches(Kmalloc(s.m, size).mem, o');
    }
  }

  /** The new space: nothing in its user half, the kernel half shared, all else unchanged. */
  ghost predicate Born(s: Memory, l: Levels, o: Owners, s': Memory, l': Levels, o': Owners, root: nat)
  {
    && PagingInv(s', l', o') && KernelShared(s'.pt, l') && root !in l.l4 && l'.l4 == l.l4 + {root}
    && o'.user == o.user && o'.base == o.base && o.held <= o'.held && s'.m.fr.NoPage() == s.m.fr.NoPage()
    && SameWalks(s.pt, s'.pt, l) && (forall x: Slot | x.a < 256 :: Walk(s'.pt, root, x) == None)
  }

  lemma InheritBorn(s: Memory, l: Levels, o: Owners, parent: nat, m': Mem, o': Owners, a: nat)
    requires KernelShared(s.pt, l) && parent in l.l4 && PagingInv(s, l, o)
    requires HandedOut(s.m, o, 7, m', o', a)
    ensures a >= PAGE_OFFSET
    ensures Born(s, l, o, Memory(m', Inherit(s.pt, parent, a - PAGE_OFFSET)),
                 l.(l4 := l.l4 + {a - PAGE_OFFSET}), o', a - PAGE_OFFSET)
    ensures forall p: nat | 256 <= p < 512 ::
      Lookup(Inherit(s.pt, parent, a - PAGE_OFFSET), a - PAGE_OFFSET, p) == Lookup(s.pt, parent, p)
  {
    hide Inv, Tree, KernelShared, Lookup, Walk, SameWalks, BlockOf;
    FreshTable(s, o, m', o', a);
    HousedKept(s, o, m', o', 7, a);
    var n := a - PAGE_OFFSET;
    InheritCorrect(s.pt, l, parent, n);
    assert n !in l.l4 by { TablesAreThere(s, l, o); }
    var s' := Memory(m', Inherit(s.pt, parent, n));
    assert Housed(s', o') by {
      forall t | t in s'.pt ensures TableAt(m', o', t) { assert t == n || t in s.pt; }
    }
  }

  lemma TablesAreThere(s: Memory, l: Levels, o: Owners)
    requires PagingInv(s, l, o)
    ensures forall t | t in l.l4 :: t in s.pt
  {
  }

  lemma NewSpaceCorrect(s: Memory, l: Levels, o: Owners, parent: nat) returns (l': Levels, o': Owners)
    requires Usable(s.m) && KernelShared(s.pt, l) && parent in l.l4 && PagingInv(s, l, o)
    ensures NewSpace(s, parent).Some? ==>
      var (s', root) := NewSpace(s, parent).value;
      && Born(s, l, o, s', l', o', root) && Usable(s'.m)
      && forall p: nat | 256 <= p < 512 :: Lookup(s'.pt, root, p) == Lookup(s.pt, parent, p)
  {
    hide PagingInv, Kmalloc, KernelShared, Inherit, HandedOut;
    ClassOfTable();
    l', o' := l, o;
    o' := KmallocKeepsPaging(s, l, o, STACK_SIZE);
    var r1 := Kmalloc(s.m, STACK_SIZE);
    if r1.Got? {
      var s1 := s.(m := r1.mem);
      var o2 := KmallocKeepsPaging(s1, l, o', MM_BYTES);
      var r2 := Kmalloc(s1.m, MM_BYTES);
      if r2.Got? {
        var s2 := s.(m := r2.mem);
        var o3 := KmallocKeepsPaging(s2, l, o2, PAGE_4K);
        var r3 := Kmalloc(s2.m, PAGE_4K);
        if r3.Got? {
          InheritBorn(s2, l, o2, parent, r3.mem, o3, r3.addr);
          BornThrough(s, l, o, s1, o', s2, o2, r1.addr, r2.addr,
            Memory(r3.mem, Inherit(s.pt, parent, r3.addr - PAGE_OFFSET)), l.(l4 := l.l4 + {r3.addr - PAGE_OFFSET}), o3,
            r3.addr - PAGE_OFFSET);
          l', o' := l.(l4 := l.l4 + {r3.addr - PAGE_OFFSET}), o3;
        }
      }
    }
  }

  lemma BornThrough(s: Memory, l: Levels, o: Owners, s1: Memory, o1: Owners, s2: Memory, o2: Owners, a1: nat, a2: nat,
                    s3: Memory, l3: Levels, o3: Owners, root: nat)
    requires HandedOut(s.m, o, ClassFor(STACK_SIZE, 0), s1.m, o1, a1) && s1.pt == s.pt
    requires HandedOut(s1.m, o1, ClassFor(MM_BYTES, 0), s2.m, o2, a2) && s2.pt == s.pt
    requires Born(s2, l, o2, s3, l3, o3, root)
    ensures Born(s, l, o, s3, l3, o3, root)
    ensures Usable(s3.m)
  {
    hide Inv, KernelShared, SameWalks, BlockOf, Walk;
    PagingParts(s3, l3, o3);
  }

  /** The new task takes three blocks nobody had: one of 32 KB for the task and its stack, one of 128
      bytes for the mm_struct, one of 4 KB for the PML4. */
  lemma NewSpaceBlocks(s: Memory, l: Levels, o: Owners, parent: nat) returns (o': Owners, stack: nat, mm: nat)
    requires Usable(s.m) && PagingInv(s, l, o)
    ensures NewSpace(s, parent).Some? ==>
      var (s', root) := NewSpace(s, parent).value; var table := root + PAGE_OFFSET;
      && Inv(s'.m, o') && o'.held == o.held + {stack, mm, table}
      && stack !in o.held && mm !in o.held && table !in o.held && stack != mm && stack != table && mm != table
      && BlockOf(s'.m, stack, 10) && BlockOf(s'.m, mm, 2) && BlockOf(s'.m, table, 7)
  {
    hide PagingInv, Inv, Kmalloc, Inherit, BlockOf, SlabsKept, ClassFor;
    ClassesTaken();
    PagingParts(s, l, o);
    stack, mm := 0, 0;
    o' := OneBlock(s.m, o, STACK_SIZE);
    var r1 := Kmalloc(s.m, STACK_SIZE);
    if r1.Got? {
      stack := r1.addr;
      o' := OneBlock(r1.mem, o', MM_BYTES);
      var r2 := Kmalloc(r1.mem, MM_BYTES);
      if r2.Got? {
        mm := r2.addr;
        NewIsFresh(r1.mem, r2.mem, stack, 10);
        o' := OneBlock(r2.mem, o', PAGE_4K);
        var r3 := Kmalloc(r2.mem, PAGE_4K);
        if r3.Got? {
          NewIsFresh(r2.mem, r3.mem, stack, 10);
          NewIsFresh(r2.mem, r3.mem, mm, 2);
        }
      }
    }
  }

  lemma OneBlock(m: Mem, o: Owners, size: nat) returns (o': Owners)
    requires Usable(m) && size <= MAX_BLOCK && Inv(m, o)
    ensures var r := Kmalloc(m, size);
      r.Got? ==>
        && Usable(r.mem) && Inv(r.mem, o') && SlabsKept(m, r.mem) && r.addr !in o.held && o'.held == o.held + {r.addr}
        && BlockOf(r.mem, r.addr, ClassFor(size, 0))
  {
    hide Inv, Kmalloc, BlockOf, SlabsKept, FramesNeeded, OwnFrames, FreeFrames;
    o' := KmallocCorrect(m, o, size);
    if Kmalloc(m, size).Got? { InvCaches(Kmalloc(m, size).mem, o'); }
  }

  lemma ClassesTaken()
    ensures ClassFor(STACK_SIZE, 0) == 10 && ClassFor(MM_BYTES, 0) == 2 && ClassFor(PAGE_4K, 0) == 7
  {
    assert Size(1) < MM_BYTES <= Size(2) && Size(6) < PAGE_4K <= Size(7) && Size(9) < STACK_SIZE <= Size(10);
  }

  // ----- its pages -----

  /** One user page of root came to be backed by frame p; nothing else changed anywhere. */
  ghost predicate PageAdded(pt: map<nat, Table>, pt': map<nat, Table>, l: Levels, root: nat, v: nat, p: nat)
  {
    && (forall w: nat | v <= w < v + PAGE_2M :: Backed(pt', root, w, p))
    && (forall w: nat | w < USER_TOP && !(v <= w < v + PAGE_2M) :: Walk(pt', root, SlotOf(w)) == Walk(pt, root, SlotOf(w)))
    && (forall u, x: Slot | u in l.l4 && u != root :: Walk(pt', u, x) == Walk(pt, u, x))
  }

  lemma UserSlot(v: nat)
    requires v < USER_TOP
    ensures SlotOf(v).a < 256
  {
  }

  lemma RangeOfOne(pt: map<nat, Table>, pt': map<nat, Table>, l: Levels, root: nat, v: nat, p: nat, flags: set<Flag>)
    requires Unshared(pt, l) && KernelShared(pt, l) && root in l.l4 && v % PAGE_2M == 0 && v + PAGE_2M <= USER_TOP
    requires RangeMapped(pt, pt', l, root, v, p * PAGE_2M, 0, 1, flags)
    ensures PageAdded(pt, pt', l, root, v, p)
  {
    hide Walk, Lookup, Unshared, KernelShared;
    var x := PageSlot(v, 0);
    assert x == SlotOf(v);
    assert Walk(pt', root, x) == Some(Entry(p * PAGE_2M, flags));
    forall w: nat | w < USER_TOP
      ensures if v <= w < v + PAGE_2M then Backed(pt', root, w, p)
              else Walk(pt', root, SlotOf(w)) == Walk(pt, root, SlotOf(w))
    {
      UserPages(v, w);
    }
    UserSlot(v);
    forall u, y: Slot | u in l.l4 && u != root ensures Walk(pt', u, y) == Walk(pt, u, y) {
      if y == x { SharingIsKernelHalf(pt, l, u, root, x.a); }
    }
  }

  /** What backing a page does to the whole state. */
  ghost predicate Added(s: Memory, l: Levels, o: Owners, s': Memory, l': Levels, o': Owners, root: nat, v: nat, p: nat)
  {
    && PagingInv(s', l', o') && KernelShared(s'.pt, l') && l'.l4 == l.l4
    && p !in o.user && o'.user == o.user + {p} && PageAdded(s.pt, s'.pt, l, root, v, p)
  }

  lemma BackPageCorrect(s: Memory, l: Levels, o: Owners, root: nat, v: nat, attr: Attr) returns (l': Levels, o': Owners)
    requires Usable(s.m) && Alloc(s.m.fr, 1, 0).Run?
    requires root in l.l4 && attr.pde != {} && v % PAGE_2M == 0 && v + PAGE_2M <= USER_TOP
    requires KernelShared(s.pt, l) && PagingInv(s, l, o)
    ensures var r := BackPage(s, root, v, attr);
      r.Mapped? ==>
        && Usable(r.mem.m) && Added(s, l, o, r.mem, l', o', root, v, Alloc(s.m.fr, 1, 0).start)
        && Allows(r.mem.pt, root, SlotOf(v), Common(attr))
        && UpperKept(s.pt, r.mem.pt, l, l') && SameShares(s.pt, r.mem.pt, l)
  {
    hide Inv, PagingInv, PagetableInit, Walk, Alloc, Lookup, Shares, SlotOf, RangeMapped, KernelShared, PageAdded, Allows, UpperKept;
    var p := Alloc(s.m.fr, 1, 0).start;
    FrameTakenKeepsPaging(s, l, o, 0);
    PagingParts(s, l, o);
    var s1, o1 := s.(m := s.m.(fr := Alloc(s.m.fr, 1, 0).state)), o.(user := o.user + {p});
    PagingParts(s1, l, o1);
    l', o' := MapThenTranslate(s1, l, o1, root, p * PAGE_2M, v, 1, attr);
    var r := PagetableInit(s1, root, p * PAGE_2M, v, 1, attr);
    if r.Mapped? {
      RangeOfOne(s.pt, r.mem.pt, l, root, v, p, attr.pde);
      FirstSlot(v);
      assert Allows(r.mem.pt, root, PageSlot(v, 0), Common(attr));
      SharedKept(s.pt, r.mem.pt, l);
      SharedLevels(r.mem.pt, l, l');
      PagingParts(r.mem, l', o');
    }
  }

  lemma SharedLevels(pt: map<nat, Table>, l: Levels, l': Levels)
    requires KernelShared(pt, l) && l'.l4 == l.l4
    ensures KernelShared(pt, l')
  {
  }

  /** The frames behind the user half of a forked space: the image page and perhaps one heap page. */
  ghost predicate ChildPages(pt: map<nat, Table>, root: nat, frames: seq<nat>)
  {
    && 1 <= |frames| <= 2
    && (forall v: nat | IMAGE <= v < IMAGE + PAGE_2M :: Backed(pt, root, v, frames[0]))
    && (|frames| == 2 ==> forall v: nat | HEAP <= v < HEAP + PAGE_2M :: Backed(pt, root, v, frames[1]))
    && (forall v: nat | v < USER_TOP && !(IMAGE <= v < IMAGE + |frames| * PAGE_2M) :: Walk(pt, root, SlotOf(v)) == None)
  }

  ghost predicate ChildBorn(s: Memory, l: Levels, o: Owners, s': Memory, l': Levels, o': Owners, root: nat, frames: seq<nat>)
  {
    && PagingInv(s', l', o') && KernelShared(s'.pt, l') && root !in l.l4 && l'.l4 == l.l4 + {root}
    && SameWalks(s.pt, s'.pt, l) && ChildPages(s'.pt, root, frames)
    && Distinct(frames) && FrameSet(frames) !! o.user && o'.user == o.user + FrameSet(frames)
  }

  lemma FirstPage(s: Memory, l: Levels, o: Owners, s1: Memory, l1: Levels, o1: Owners, root: nat,
                  s2: Memory, l2: Levels, o2: Owners, p: nat)
    requires Born(s, l, o, s1, l1, o1, root) && Added(s1, l1, o1, s2, l2, o2, root, IMAGE, p)
    ensures ChildBorn(s, l, o, s2, l2, o2, root, [p])
  {
    hide PagingInv, KernelShared, Walk, SlotOf;
    forall v: nat | v < USER_TOP && !(IMAGE <= v < IMAGE + PAGE_2M) ensures Walk(s2.pt, root, SlotOf(v)) == None {
      NoneThere(s1.pt, root, v);
    }
    assert FrameSet([p]) == {p};
    forall r, x: Slot | r in l.l4 ensures Walk(s2.pt, r, x) == Walk(s.pt, r, x) {
      assert Walk(s1.pt, r, x) == Walk(s.pt, r, x);
    }
  }

  lemma NoneThere(pt: map<nat, Table>, root: nat, v: nat)
    requires v < USER_TOP && forall x: Slot | x.a < 256 :: Walk(pt, root, x) == None
    ensures Walk(pt, root, SlotOf(v)) == None
  {
  }

  lemma SecondPage(s: Memory, l: Levels, o: Owners, s2: Memory, l2: Levels, o2: Owners, root: nat, p: nat,
                   s3: Memory, l3: Levels, o3: Owners, q: nat)
    requires ChildBorn(s, l, o, s2, l2, o2, root, [p]) && Added(s2, l2, o2, s3, l3, o3, root, HEAP, q)
    ensures ChildBorn(s, l, o, s3, l3, o3, root, [p, q])
  {
    hide PagingInv, KernelShared, Walk, SlotOf;
    assert FrameSet([p]) == {p} && FrameSet([p, q]) == {p, q};
    forall v: nat | IMAGE <= v < IMAGE + PAGE_2M ensures Backed(s3.pt, root, v, p) {
      assert Backed(s2.pt, root, v, p);
    }
    forall r, x: Slot | r in l.l4 ensures Walk(s3.pt, r, x) == Walk(s.pt, r, x) {
      assert Walk(s2.pt, r, x) == Walk(s.pt, r, x);
    }
  }

  /** fork: every existing space translates as before, in its user half and in the kernel half;
      the child shares the kernel half; its user half holds the image page and, when the parent has
      a heap, one heap page, each on a frame nobody had. */
  lemma ForkCorrect(s: Memory, l: Levels, o: Owners, parent: MM, path: bool, attr: Attr)
    returns (l': Levels, o': Owners, frames: seq<nat>)
    requires Usable(s.m) && KernelShared(s.pt, l) && parent.root in l.l4 && attr.pde != {}
    requires PagingInv(s, l, o)
    ensures var r := DoFork(s, parent, path, attr);
      r.Forked? ==> ChildBorn(s, l, o, r.mem, l', o', r.mm.root, frames)
                    && |frames| == (if path || parent.end == parent.start then 1 else 2)
                    && r.mm == (if path then MM(r.mm.root, HEAP, HEAP) else parent.(root := r.mm.root))
                    && Allows(r.mem.pt, r.mm.root, SlotOf(IMAGE), Common(attr))
                    && (|frames| == 2 ==> Allows(r.mem.pt, r.mm.root, SlotOf(HEAP), Common(attr)))
  {
    hide Inv, PagingInv, NewSpace, BackPage, KernelShared, SameWalks, ChildBorn, Added, Alloc, Tree, Allows, UpperKept, SlotOf;
    l', o', frames := l, o, [];
    if NewSpace(s, parent.root).Some? {
      var (s1, root) := NewSpace(s, parent.root).value;
      var l1, o1 := NewSpaceCorrect(s, l, o, parent.root);
      if Alloc(s1.m.fr, 1, 0).Run? {
        var p := Alloc(s1.m.fr, 1, 0).start;
        var l2, o2 := BackPageCorrect(s1, l1, o1, root, IMAGE, attr);
        if BackPage(s1, root, IMAGE, attr).Mapped? {
          var s2 := BackPage(s1, root, IMAGE, attr).mem;
          FirstPage(s, l, o, s1, l1, o1, root, s2, l2, o2, p);
          l', o', frames := l2, o2, [p];
          if !path && parent.end != parent.start && Alloc(s2.m.fr, 1, 0).Run? {
            var q := Alloc(s2.m.fr, 1, 0).start;
            AddedParts(s1, l1, o1, s2, l2, o2, root, IMAGE, p);
            var l3, o3 := BackPageCorrect(s2, l2, o2, root, HEAP, attr);
            if BackPage(s2, root, HEAP, attr).Mapped? {
              SecondPage(s, l, o, s2, l2, o2, root, p, BackPage(s2, root, HEAP, attr).mem, l3, o3, q);
              AddedParts(s2, l2, o2, BackPage(s2, root, HEAP, attr).mem, l3, o3, root, HEAP, q);
              ImageStays(s2, l2, o2, BackPage(s2, root, HEAP, attr).mem, l3, o3, root, q, Common(attr));
              l', o', frames := l3, o3, [p, q];
            }
          }
        }
      }
    }
  }

  /** The image page is let through as before once the heap page is there. */
  lemma ImageStays(s: Memory, l: Levels, o: Owners, s': Memory, l': Levels, o': Owners, root: nat, q: nat, need: set<Flag>)
    requires root in l.l4 && Added(s, l, o, s', l', o', root, HEAP, q) && UpperKept(s.pt, s'.pt, l, l') && SameShares(s.pt, s'.pt, l)
    requires PagingInv(s, l, o) && Allows(s.pt, root, SlotOf(IMAGE), need)
    ensures Allows(s'.pt, root, SlotOf(IMAGE), need)
  {
    hide PagingInv, Allows, Walk, SlotOf, SameShares, UpperKept, KernelShared;
    AllowsKept(s, l, o, s', l', o', root, SlotOf(IMAGE), need);
  }

  lemma AddedParts(s: Memory, l: Levels, o: Owners, s': Memory, l': Levels, o': Owners, root: nat, v: nat, p: nat)
    requires Added(s, l, o, s', l', o', root, v, p)
    ensures PagingInv(s', l', o') && KernelShared(s'.pt, l') && l'.l4 == l.l4
  {
  }

  // ----- the child's heap -----

  /** The child inherits start_brk and end_brk, but of the heap only the first page: its heap is
      well formed exactly when it starts empty or the parent's heap has at most one page. */
  lemma ForkHeapIff(s: Memory, l: Levels, o: Owners, parent: MM, heap: seq<nat>, path: bool, attr: Attr)
    returns (l': Levels, o': Owners)
    requires Usable(s.m) && KernelShared(s.pt, l) && parent.root in l.l4 && attr.pde != {}
    requires parent.start == HEAP && HeapInv(s, o, parent, heap)
    requires PagingInv(s, l, o)
    ensures var r := DoFork(s, parent, path, attr);
      r.Forked? ==>
        PagingInv(r.mem, l', o') && SameWalks(s.pt, r.mem.pt, l)
        && ((exists h :: HeapInv(r.mem, o', r.mm, h)) <==> path || parent.end - parent.start <= PAGE_2M)
  {
    hide Inv, PagingInv, DoFork, KernelShared, SameWalks, ChildPages, HeapInv;
    var frames;
    l', o', frames := ForkCorrect(s, l, o, parent, path, attr);
    HeapEnd(s, o, parent, heap);
    var r := DoFork(s, parent, path, attr);
    if r.Forked? {
      if path || parent.end - parent.start <= PAGE_2M {
        ChildHeap(r.mem, o', r.mm, frames);
      } else {
        NoChildHeap(r.mem, o', r.mm, frames);
      }
    }
  }

  lemma ChildHeap(s: Memory, o: Owners, mm: MM, frames: seq<nat>)
    requires ChildPages(s.pt, mm.root, frames) && FrameSet(frames) <= o.user && Distinct(frames)
    requires mm.start == HEAP && mm.end == HEAP + (|frames| - 1) * PAGE_2M
    ensures HeapInv(s, o, mm, frames[1..])
  {
  }

  lemma NoChildHeap(s: Memory, o: Owners, mm: MM, frames: seq<nat>)
    requires ChildPages(s.pt, mm.root, frames) && mm.start == HEAP && mm.end > HEAP + PAGE_2M
    ensures !exists h :: HeapInv(s, o, mm, h)
  {
    hide Walk, SlotOf;
    assert Walk(s.pt, mm.root, SlotOf(HeapPage(mm, 1))) == None;
    forall h ensures !HeapInv(s, o, mm, h) {
      if |h| >= 2 { assert !Backed(s.pt, mm.root, HeapPage(mm, 1), h[1]); }
    }
  }
}
