/** Address spaces: the kernel half that all of them share (Kernel/main.c, do_fork in
    Kernel/Task.c) and the user half that none does. */
module KernelHalf {
  import opened Words
  import opened Slabs
  import opened SlabOwnership
  import opened Paging
  import opened PagingSteps
  import opened PagingMaps

  /** Every upper PML4 entry is filled, and all spaces hold the same table there. */
  ghost predicate KernelShared(pt: map<nat, Table>, l: Levels)
  {
    forall r, u, p: nat | r in l.l4 && u in l.l4 && 256 <= p < 512 ::
      Lookup(pt, r, p) != EMPTY && Lookup(pt, r, p).base == Lookup(pt, u, p).base
  }

  /** With the kernel half filled and shared, two spaces share the table below entry p exactly
      when p lies in the kernel half or they are the same space. */
  lemma SharingIsKernelHalf(pt: map<nat, Table>, l: Levels, r: nat, u: nat, p: nat)
    requires Unshared(pt, l) && KernelShared(pt, l) && r in l.l4 && u in l.l4 && p < 512
    ensures Shares(pt, r, u, p) <==> r == u || p >= 256
  {
  }

  lemma SharedKept(pt: map<nat, Table>, pt': map<nat, Table>, l: Levels)
    requires KernelShared(pt, l) && SameShares(pt, pt', l)
    ensures KernelShared(pt', l)
  {
  }

  /** Whatever is mapped through one space: afterwards all spaces still agree on every kernel
      address; and a mapping in the user half leaves every other space's translations alone. */
  lemma MappingAndSpaces(s: Memory, l: Levels, o: Owners, root: nat, phys: nat, virt: nat, n: nat, attr: Attr)
    returns (l': Levels, o': Owners)
    requires |s.m.caches| == CLASSES && |s.m.fr.refs| == s.m.fr.NoPage()
    requires root in l.l4 && attr.pde != {} && n <= 0x800_0000
    requires KernelShared(s.pt, l) && PagingInv(s, l, o)
    ensures var r := PagetableInit(s, root, phys, virt, n, attr);
      r.Mapped? ==>
        && Extends(s, l, o, r.mem, l', o') && KernelShared(r.mem.pt, l')
        && (forall u, v: nat | u in l.l4 && SlotOf(v).a >= 256 ::
              Walk(r.mem.pt, u, SlotOf(v)) == Walk(r.mem.pt, root, SlotOf(v)))
        && (forall u, v: nat | u in l.l4 && u != root && SlotOf(v).a < 256 ::
              Walk(r.mem.pt, u, SlotOf(v)) == Walk(s.pt, u, SlotOf(v)))
  {
    hide Inv, PagingInv, PagetableInit, Walk, Lookup;
    l', o' := MapThenTranslate(s, l, o, root, phys, virt, n, attr);
    var r := PagetableInit(s, root, phys, virt, n, attr);
    PagingParts(s, l, o);
    if r.Mapped? {
      SharedKept(s.pt, r.mem.pt, l);
      assert KernelShared(r.mem.pt, l');
      forall u, v: nat | u in l.l4 && SlotOf(v).a >= 256
        ensures Walk(r.mem.pt, u, SlotOf(v)) == Walk(r.mem.pt, root, SlotOf(v))
      {
        SharedWalk(r.mem.pt, l, u, root, SlotOf(v));
      }
      forall u, v: nat | u in l.l4 && u != root && SlotOf(v).a < 256
        ensures Walk(r.mem.pt, u, SlotOf(v)) == Walk(s.pt, u, SlotOf(v))
      {
        SharingIsKernelHalf(s.pt, l, u, root, SlotOf(v).a);
      }
    }
  }

  lemma SharedWalk(pt: map<nat, Table>, l: Levels, r: nat, u: nat, x: Slot)
    requires KernelShared(pt, l) && r in l.l4 && u in l.l4 && 256 <= x.a < 512
    ensures Walk(pt, r, x) == Walk(pt, u, x)
  {
  }

  // ----- boot fills the kernel half -----

  /** The loop over the upper entries: empty ones get a fresh table. */
  function FillKernel(s: Memory, root: nat, i: nat, flags: set<Flag>): (r: PtRes)
    requires |s.m.caches| == CLASSES && |s.m.fr.refs| == s.m.fr.NoPage()
    decreases 512 - i
  {
    if i >= 512 then PtOk(s)
    else if Lookup(s.pt, root, i) != EMPTY then FillKernel(s, root, i + 1, flags)
    else match Ensure(s, root, i, flags)
      case PtOk(s1) =>
        if |s1.m.caches| != CLASSES || |s1.m.fr.refs| != s1.m.fr.NoPage() then PtWild
        else FillKernel(s1, root, i + 1, flags)
      case r => r
  }

  /** The entries from i on that were empty got these flags; the flags of all other entries stay. */
  ghost predicate FilledWith(pt: map<nat, Table>, pt': map<nat, Table>, root: nat, i: nat, flags: set<Flag>)
  {
    forall u: nat, p: nat {:trigger Lookup(pt', u, p)} {:trigger Lookup(pt, u, p)} ::
      Lookup(pt', u, p).flags
      == if u == root && i <= p < 512 && Lookup(pt, u, p) == EMPTY then flags else Lookup(pt, u, p).flags
  }

  lemma FilledStep(pt: map<nat, Table>, pt1: map<nat, Table>, pt2: map<nat, Table>, root: nat, i: nat, flags: set<Flag>)
    requires i < 512 && Lookup(pt, root, i) == EMPTY && Lookup(pt1, root, i) != EMPTY
    requires FlagsAdded(pt, pt1, root, i, flags) && FilledWith(pt1, pt2, root, i + 1, flags)
    ensures FilledWith(pt, pt2, root, i, flags)
  {
    hide Lookup;
  }

  lemma FilledAlready(pt: map<nat, Table>, pt': map<nat, Table>, root: nat, i: nat, flags: set<Flag>)
    requires Lookup(pt, root, i) != EMPTY && FilledWith(pt, pt', root, i + 1, flags)
    ensures FilledWith(pt, pt', root, i, flags)
  {
    hide Lookup;
  }

  lemma {:induction false} FillKernelCorrect(s: Memory, l: Levels, o: Owners, root: nat, i: nat, flags: set<Flag>)
    returns (l': Levels, o': Owners)
    requires |s.m.caches| == CLASSES && |s.m.fr.refs| == s.m.fr.NoPage()
    requires l.l4 == {root} && 256 <= i && (forall p: nat | 256 <= p < i && p < 512 :: Lookup(s.pt, root, p) != EMPTY)
    requires PagingInv(s, l, o)
    ensures FillKernel(s, root, i, flags).PtOk? || FillKernel(s, root, i, flags).PtFault?
    ensures var r := FillKernel(s, root, i, flags);
      r.PtOk? ==> Extends(s, l, o, r.mem, l', o') && KernelShared(r.mem.pt, l') && SameWalks(s.pt, r.mem.pt, l)
                  && FilledWith(s.pt, r.mem.pt, root, i, flags)
    decreases 512 - i
  {
    hide Inv, PagingInv, Ensure, Lookup, Walk, Shares, Housed, Sized, Linked, Unshared;
    l', o' := l, o;
    if i >= 512 {
      ExtendsSelf(s, l, o);
    } else if Lookup(s.pt, root, i) != EMPTY {
      l', o' := FillKernelCorrect(s, l, o, root, i + 1, flags);
      var r := FillKernel(s, root, i + 1, flags);
      if r.PtOk? { FilledAlready(s.pt, r.mem.pt, root, i, flags); }
    } else {
      l', o' := EnsureCorrect(s, l, o, root, i, flags);
      var r := Ensure(s, root, i, flags);
      if r.PtOk? {
        var l1, o1 := l', o';
        PagingParts(r.mem, l1, o1);
        l', o' := FillKernelCorrect(r.mem, l1, o1, root, i + 1, flags);
        var r2 := FillKernel(r.mem, root, i + 1, flags);
        if r2.PtOk? {
          ExtendsChain(s, l, o, r.mem, l1, o1, r2.mem, l', o');
          FilledStep(s.pt, r.mem.pt, r2.mem.pt, root, i, flags);
        }
      }
    }
  }

  // ----- a forked space -----

  /** A fresh PML4 whose upper half is copied from the parent's. */
  function Inherit(pt: map<nat, Table>, parent: nat, n: nat): (r: map<nat, Table>)
  {
    pt[n := seq(512, p requires 0 <= p < 512 => if p < 256 then EMPTY else Lookup(pt, parent, p))]
  }

  lemma InheritLookups(pt: map<nat, Table>, parent: nat, n: nat)
    requires n !in pt
    ensures forall u: nat, p: nat {:trigger Lookup(Inherit(pt, parent, n), u, p)} ::
      Lookup(Inherit(pt, parent, n), u, p)
      == if u == n then (if 256 <= p < 512 then Lookup(pt, parent, p) else EMPTY) else Lookup(pt, u, p)
  {
  }

  /** The new space shares the kernel half with its parent, has nothing in its user half, and no
      other space's translation changed. */
  lemma InheritCorrect(pt: map<nat, Table>, l: Levels, parent: nat, n: nat)
    requires Tree(pt, l) && KernelShared(pt, l) && parent in l.l4 && n !in pt
    ensures var pt', l' := Inherit(pt, parent, n), l.(l4 := l.l4 + {n});
      && Tree(pt', l') && KernelShared(pt', l') && SameWalks(pt, pt', l)
      && (forall x: Slot | x.a < 256 :: Walk(pt', n, x) == None)
      && (forall p: nat | 256 <= p < 512 :: Lookup(pt', n, p) == Lookup(pt, parent, p))
  {
    var pt', l' := Inherit(pt, parent, n), l.(l4 := l.l4 + {n});
    InheritLookups(pt, parent, n);
    assert Sized(pt', l');
    assert n !in l.l4 && n !in l.l3 && n !in l.l2;
    hide Lookup, Inherit;
    InheritTree(pt, pt', l, parent, n);
    InheritWalks(pt, pt', l, parent, n);
  }

  ghost predicate Inherits(pt: map<nat, Table>, pt': map<nat, Table>, parent: nat, n: nat)
  {
    forall u: nat, p: nat {:trigger Lookup(pt', u, p)} ::
      Lookup(pt', u, p) == if u == n then (if 256 <= p < 512 then Lookup(pt, parent, p) else EMPTY) else Lookup(pt, u, p)
  }

  lemma InheritTree(pt: map<nat, Table>, pt': map<nat, Table>, l: Levels, parent: nat, n: nat)
    requires Linked(pt, l) && Unshared(pt, l) && KernelShared(pt, l)
    requires parent in l.l4 && n !in l.l4 && n !in l.l3 && n !in l.l2 && Inherits(pt, pt', parent, n)
    ensures var l' := l.(l4 := l.l4 + {n}); Linked(pt', l') && Unshared(pt', l') && KernelShared(pt', l')
  {
  }

  lemma InheritWalks(pt: map<nat, Table>, pt': map<nat, Table>, l: Levels, parent: nat, n: nat)
    requires Linked(pt, l) && parent in l.l4 && n !in l.l4 && n !in l.l3 && n !in l.l2 && Inherits(pt, pt', parent, n)
    ensures SameWalks(pt, pt', l) && (forall x: Slot | x.a < 256 :: Walk(pt', n, x) == None)
  {
  }
}
