/** The slab allocator's books: per-slab counters against colour maps, per-class totals against
    the slab list. Every operation keeps them, and they make every list walk and every colour
    scan end with a free block. */
module SlabBooks {
  import opened Words
  import opened Sequences
  import opened Frames
  import opened Slabs

  /** Sum over the listed slabs of their free (or using) counters. */
  function Sum(slabs: map<nat, Slab>, order: seq<nat>, inUse: bool): (r: int)
  {
    if order == [] then 0
    else
      var f := order[|order| - 1];
      Sum(slabs, order[..|order| - 1], inUse)
      + (if f !in slabs then 0 else if inUse then slabs[f].using else slabs[f].free)
  }

  ghost predicate Listed(m: Mem, i: nat)
    requires i < |m.caches|
  {
    var order := m.caches[i].order;
    && order != [] && Distinct(order)
    && (forall f :: f in order <==> f in m.slabs && m.slabs[f].cls == i)
  }

  /** The totals of class i are the sums over its slabs. */
  ghost predicate Totals(m: Mem, i: nat)
    requires i < |m.caches|
  {
    var c := m.caches[i];
    c.totalFree == Sum(m.slabs, c.order, false) && c.totalUsing == Sum(m.slabs, c.order, true)
  }

  ghost predicate Books(m: Mem)
  {
    && |m.caches| == CLASSES
    && m.fr.Consistent()
    && (forall f | f in m.slabs :: m.slabs[f].Ok() && m.fr.Allocated(f))
    && (forall i | 0 <= i < CLASSES :: Listed(m, i) && Totals(m, i))
  }

  // ----- sums -----

  lemma {:induction false} SumSame(slabs: map<nat, Slab>, slabs': map<nat, Slab>, order: seq<nat>, inUse: bool)
    requires forall f | f in order :: (f in slabs <==> f in slabs') && (f in slabs ==> slabs[f] == slabs'[f])
    ensures Sum(slabs, order, inUse) == Sum(slabs', order, inUse)
  {
    if order != [] {
      var n := |order| - 1;
      assert order[n] in order;
      assert forall f | f in order[..n] :: f in order;
      SumSame(slabs, slabs', order[..n], inUse);
    }
  }

  lemma {:induction false} SumUpdate(slabs: map<nat, Slab>, order: seq<nat>, f: nat, s: Slab, inUse: bool)
    requires Distinct(order) && f in slabs && f in order
    ensures Sum(slabs[f := s], order, inUse)
         == Sum(slabs, order, inUse) + (if inUse then s.using - slabs[f].using else s.free - slabs[f].free)
  {
    var n := |order| - 1;
    if order[n] == f {
      assert f !in order[..n];
      SumSame(slabs, slabs[f := s], order[..n], inUse);
    } else {
      SumUpdate(slabs, order[..n], f, s, inUse);
    }
  }

  lemma {:induction false} WithoutFacts(order: seq<nat>, f: nat)
    requires Distinct(order) && f in order
    ensures Distinct(Without(order, f)) && |Without(order, f)| == |order| - 1
    ensures forall g :: g in Without(order, f) <==> g in order && g != f
    ensures order[0] != f ==> Without(order, f) != [] && Without(order, f)[0] == order[0]
  {
    var n := |order| - 1;
    if order[n] == f {
      assert order == order[..n] + [f];
    } else {
      assert order == order[..n] + [order[n]];
      WithoutFacts(order[..n], f);
      var w := Without(order[..n], f);
      forall k | 0 <= k < |w| ensures w[k] != order[n] { assert w[k] in w; }
    }
  }

  /** The others stay in the order they were in. */
  lemma {:induction false} WithoutIs(order: seq<nat>, f: nat) returns (k: nat)
    requires f in order
    ensures k < |order| && order[k] == f && Without(order, f) == order[..k] + order[k + 1..]
  {
    var n := |order| - 1;
    if order[n] == f {
      k := n;
    } else {
      assert order == order[..n] + [order[n]];
      k := WithoutIs(order[..n], f);
      assert order[k + 1..] == order[..n][k + 1..] + [order[n]];
    }
  }

  lemma {:induction false} SumWithout(slabs: map<nat, Slab>, order: seq<nat>, f: nat, inUse: bool)
    requires Distinct(order) && f in order && f in slabs
    ensures Sum(slabs - {f}, Without(order, f), inUse)
         == Sum(slabs, order, inUse) - (if inUse then slabs[f].using else slabs[f].free)
  {
    var n := |order| - 1;
    if order[n] == f {
      assert f !in order[..n];
      SumSame(slabs, slabs - {f}, order[..n], inUse);
    } else {
      SumWithout(slabs, order[..n], f, inUse);
      var w := Without(order[..n], f);
      assert (w + [order[n]])[..|w|] == w;
    }
  }

  /** If the sum is not zero, the walk finds a slab whose counter is not zero. */
  lemma {:induction false} WalkFinds(m: Mem, order: seq<nat>, k: nat)
    requires k <= |order|
    requires FirstSlab(m, order, k).None?
    ensures Sum(m.slabs, order, false) == Sum(m.slabs, order[..k], false)
    decreases |order| - k
  {
    if k < |order| {
      WalkFinds(m, order, k + 1);
      assert order[..k + 1][..k] == order[..k];
    } else {
      assert order[..k] == order;
    }
  }

  lemma {:induction false} WalkResult(m: Mem, order: seq<nat>, k: nat)
    requires FirstSlab(m, order, k).Some?
    ensures var f := FirstSlab(m, order, k).value; f in order && f in m.slabs && m.slabs[f].free != 0
    decreases |order| - k
  {
    if k < |order| && !(order[k] in m.slabs && m.slabs[order[k]].free != 0) {
      WalkResult(m, order, k + 1);
    }
  }

  /** The scan finds the least clear colour bit. */
  lemma {:induction false} ScanIsFirst(bits: seq<bool>, count: nat, j: nat)
    requires count <= |bits|
    ensures FirstClear(bits, count, j).None? <==> forall k | j <= k < count :: bits[k]
    ensures FirstClear(bits, count, j).Some? ==>
              forall k | j <= k < FirstClear(bits, count, j).value :: bits[k]
    decreases count - j
  {
    if j < count && bits[j] {
      ScanIsFirst(bits, count, j + 1);
    }
  }

  /** A slab whose free counter is not zero has a clear colour bit. */
  lemma ScanFinds(s: Slab)
    requires s.Ok() && s.free != 0
    ensures s.free > 0 && FirstClear(s.colors, s.count, 0).Some?
  {
    CountSetFull(s.colors[..s.count]);
    ScanIsFirst(s.colors, s.count, 0);
    var k :| 0 <= k < s.count && !s.colors[..s.count][k];
    assert !s.colors[k];
  }

  lemma WalkEnds(m: Mem, i: nat)
    requires Books(m) && i < CLASSES && m.caches[i].totalFree != 0
    ensures FirstSlab(m, m.caches[i].order, 0).Some?
  {
    var order := m.caches[i].order;
    assert Totals(m, i);
    assert order[..0] == [];
    if FirstSlab(m, order, 0).None? {
      WalkFinds(m, order, 0);
    }
  }

  /** total_free not zero: the walk and the scan end with a free block; the source cannot spin. */
  lemma FastFinds(m: Mem, i: nat) returns (f: nat, j: nat)
    requires Books(m) && i < CLASSES && m.caches[i].totalFree != 0
    ensures f in m.slabs && m.slabs[f].cls == i && m.slabs[f].free > 0
    ensures j < m.slabs[f].count && j < |m.slabs[f].colors| && !m.slabs[f].colors[j]
    ensures forall k | 0 <= k < j :: m.slabs[f].colors[k]
    ensures exists n :: 0 <= n < |m.caches[i].order| && FirstWithRoom(m, m.caches[i].order, n, f)
    ensures Fast(m, i) == Got(Take(m, f, j), VA(f) + Size(i) * j)
  {
    WalkEnds(m, i);
    WalkResult(m, m.caches[i].order, 0);
    f := FirstSlab(m, m.caches[i].order, 0).value;
    assert Listed(m, i);
    ScanFinds(m.slabs[f]);
    ScanIsFirst(m.slabs[f].colors, m.slabs[f].count, 0);
    j := FirstClear(m.slabs[f].colors, m.slabs[f].count, 0).value;
    var n := WalkIsFirst(m, m.caches[i].order, 0);
  }

  /** f is slab n of the list, and those before it are full. */
  ghost predicate FirstWithRoom(m: Mem, order: seq<nat>, n: nat, f: nat)
  {
    && n < |order| && order[n] == f
    && forall k | 0 <= k < n :: order[k] in m.slabs ==> m.slabs[order[k]].free == 0
  }

  lemma {:induction false} WalkIsFirst(m: Mem, order: seq<nat>, k: nat) returns (n: nat)
    requires k <= |order| && FirstSlab(m, order, k).Some?
    requires forall q | 0 <= q < k :: order[q] in m.slabs ==> m.slabs[order[q]].free == 0
    ensures FirstWithRoom(m, order, n, FirstSlab(m, order, k).value)
    decreases |order| - k
  {
    n := k;
    if !(order[k] in m.slabs && m.slabs[order[k]].free != 0) { n := WalkIsFirst(m, order, k + 1); }
  }

  // ----- the steps keep the books -----

  lemma UsedOk(s: Slab, j: nat)
    requires s.Ok() && j < s.count && !s.colors[j]
    ensures j < |s.colors| && Used(s, j).Ok()
  {
    CountSetUpdate(s.colors[..s.count], j, true);
    assert s.colors[j := true][..s.count] == s.colors[..s.count][j := true];
  }

  /** A slab's books survive the toggle exactly when the block was in use. */
  lemma FlippedOkIff(s: Slab, j: nat)
    requires s.Ok() && j < s.count
    ensures j < |s.colors| && (Flipped(s, j).Ok() <==> s.colors[j])
  {
    CountSetUpdate(s.colors[..s.count], j, !s.colors[j]);
    assert s.colors[j := !s.colors[j]][..s.count] == s.colors[..s.count][j := !s.colors[j]];
  }

  /** Replacing one slab and moving the totals of its class by the same amounts. */
  lemma ReplaceKeepsBooks(m: Mem, f: nat, s: Slab, c: Cache)
    requires Books(m) && f in m.slabs && s.Ok() && s.cls == m.slabs[f].cls
    requires c.order == m.caches[s.cls].order
    requires c.totalFree == m.caches[s.cls].totalFree + s.free - m.slabs[f].free
    requires c.totalUsing == m.caches[s.cls].totalUsing + s.using - m.slabs[f].using
    ensures Books(Mem(m.fr, m.slabs[f := s], m.caches[s.cls := c]))
  {
    var m' := Mem(m.fr, m.slabs[f := s], m.caches[s.cls := c]);
    forall i | 0 <= i < CLASSES ensures Listed(m', i) && Totals(m', i) {
      assert Listed(m, i) && Totals(m, i);
      var order := m.caches[i].order;
      if i == s.cls {
        SumUpdate(m.slabs, order, f, s, false);
        SumUpdate(m.slabs, order, f, s, true);
      } else {
        SumSame(m.slabs, m'.slabs, order, false);
        SumSame(m.slabs, m'.slabs, order, true);
      }
    }
  }

  lemma TakeKeepsBooks(m: Mem, f: nat, j: nat)
    requires Books(m) && f in m.slabs && j < m.slabs[f].count
    requires j < |m.slabs[f].colors| && !m.slabs[f].colors[j]
    ensures Books(Take(m, f, j))
  {
    var s := m.slabs[f];
    UsedOk(s, j);
    ReplaceKeepsBooks(m, f, Used(s, j), Take(m, f, j).caches[s.cls]);
  }

  /** Toggling keeps the books exactly when the block was in use: a second kfree of the same
      address ruins them. */
  lemma ToggleKeepsBooksIff(m: Mem, f: nat, j: nat)
    requires Books(m) && f in m.slabs && j < m.slabs[f].count
    requires j < |m.slabs[f].colors|
    ensures Books(Toggle(m, f, j)) <==> m.slabs[f].colors[j]
  {
    var s := m.slabs[f];
    FlippedOkIff(s, j);
    if s.colors[j] {
      ReplaceKeepsBooks(m, f, Flipped(s, j), Toggle(m, f, j).caches[s.cls]);
    } else {
      assert !Toggle(m, f, j).slabs[f].Ok();
    }
  }

  lemma NewMapFacts(count: nat)
    requires 1 <= count
    ensures |NewMap(count)| == 8 * MapBytes(count) >= count
    ensures CountSet(NewMap(count)[..count]) == 1
  {
    var zeros := seq(count, _ => false);
    CountZeros(count);
    assert NewMap(count)[..count] == zeros[0 := true];
    CountSetUpdate(zeros, 0, true);
  }

  lemma {:induction false} CountZeros(n: nat)
    ensures CountSet(seq(n, _ => false)) == 0
  {
    if n > 0 {
      assert seq(n, _ => false)[..n - 1] == seq(n - 1, _ => false);
      CountZeros(n - 1);
    }
  }

  lemma NewSlabOk(i: nat, hdr: nat, cmap: nat)
    requires i < CLASSES
    ensures NewSlab(i, hdr, cmap).Ok()
    ensures forall j | 0 <= j < NewCount(i) :: NewSlab(i, hdr, cmap).colors[j] <==> j == 0
  {
    LayoutFacts(i);
    NewMapFacts(NewCount(i));
  }

  lemma AddSlabKeepsBooks(m: Mem, f: nat, s: Slab)
    requires Books(m) && f !in m.slabs && m.fr.Allocated(f) && s.Ok()
    ensures Books(AddSlab(m, f, s))
  {
    var m' := AddSlab(m, f, s);
    forall i | 0 <= i < CLASSES ensures Listed(m', i) && Totals(m', i) {
      assert Listed(m, i) && Totals(m, i);
      var order := m.caches[i].order;
      SumSame(m.slabs, m'.slabs, order, false);
      SumSame(m.slabs, m'.slabs, order, true);
      if i == s.cls {
        assert m'.caches[i].order[..|order|] == order;
      }
    }
  }

  lemma DetachKeepsBooks(m: Mem, f: nat)
    requires Books(m) && f in m.slabs && m.slabs[f].using == 0
    requires m.caches[m.slabs[f].cls].order != [] && m.caches[m.slabs[f].cls].order[0] != f
    ensures Books(Detach(m, f))
    ensures var i := m.slabs[f].cls;
      Detach(m, f).caches[i].order != [] && Detach(m, f).caches[i].order[0] == m.caches[i].order[0]
  {
    var s := m.slabs[f];
    var m' := Detach(m, f);
    assert Listed(m, s.cls);
    WithoutFacts(m.caches[s.cls].order, f);
    forall i | 0 <= i < CLASSES ensures Listed(m', i) && Totals(m', i) {
      assert Listed(m, i) && Totals(m, i);
      var order := m.caches[i].order;
      if i == s.cls {
        SumWithout(m.slabs, order, f, false);
        SumWithout(m.slabs, order, f, true);
      } else {
        SumSame(m.slabs, m'.slabs, order, false);
        SumSame(m.slabs, m'.slabs, order, true);
      }
    }
  }

  /** Unlinking a slab keeps the order of the others in the list of its class, and the other lists. */
  lemma DetachKeepsOrder(m: Mem, f: nat) returns (k: nat)
    requires Books(m) && f in m.slabs
    ensures m.slabs[f].cls < |m.caches|
    ensures var order := m.caches[m.slabs[f].cls].order;
      k < |order| && order[k] == f && Detach(m, f).caches[m.slabs[f].cls].order == order[..k] + order[k + 1..]
    ensures forall n | 0 <= n < |m.caches| && n != m.slabs[f].cls :: Detach(m, f).caches[n] == m.caches[n]
  {
    assert Listed(m, m.slabs[f].cls);
    k := WithoutIs(m.caches[m.slabs[f].cls].order, f);
  }

  /** Changing only the frames keeps the books as long as the slabs keep theirs. */
  lemma FramesKeepBooks(m: Mem, fr: FrameState)
    requires Books(m) && fr.Consistent()
    requires forall f | f in m.slabs :: fr.Allocated(f)
    ensures Books(m.(fr := fr))
  {
    var m' := m.(fr := fr);
    forall i | 0 <= i < CLASSES ensures Listed(m', i) && Totals(m', i) {
      assert Listed(m, i) && Totals(m, i);
    }
  }

  /** What is left of a class after a slab was given back: half a slab at the least, so the
      class never runs dry that way. */
  lemma DetachLeavesHalf(m: Mem, f: nat)
    requires Books(m) && f in m.slabs && Surplus(m, f)
    ensures var i := m.slabs[f].cls;
      Detach(m, f).caches[i].totalFree >= m.slabs[f].count / 2 >= 1
  {
  }
}
