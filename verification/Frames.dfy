/** The 2 MB page-frame bitmap (Kernel/Mem.c: alloc_pages, free_pages). */
module Frames {
  import opened Words

  const PAGE_2M: nat := 0x200000

  /** The allocator's state as a value. `bits` is the bitmap followed by the one word of memory
      that lies directly behind it, which the straddling window of the search also reads. */
  datatype FrameState = FrameState(bits: seq<bool>, used: int, attr: seq<nat>, refs: seq<nat>) {
    function NoPage(): nat { |attr| }

    /** Bits of the words that belong to the bitmap. */
    function Limit(): nat { if |bits| < 64 then 0 else |bits| - 64 }

    /** bits_length covers No_Page rounded up to whole words; the padding bits stay set. */
    ghost predicate WellFormed() {
      && |refs| == NoPage()
      && |bits| >= 64 && |bits| % 64 == 0
      && NoPage() <= Limit() < NoPage() + 64
      && forall k | NoPage() <= k < Limit() :: bits[k]
    }

    /** Used_Pages counts the set bits, and a frame is referenced exactly when its bit is set. */
    ghost predicate Consistent() {
      && WellFormed()
      && used == CountSet(bits[..NoPage()])
      && (forall k | 0 <= k < NoPage() :: refs[k] == if bits[k] then 1 else 0)
      && (forall k | 0 <= k < NoPage() && !bits[k] :: attr[k] == 0)
    }

    /** Frame k exists and is free. */
    predicate Free(k: nat) { k < NoPage() && k < |bits| && !bits[k] }

    predicate Allocated(k: nat) { k < NoPage() && k < |bits| && bits[k] }
  }

  // ----- the search -----

  predicate RunFree(bits: seq<bool>, s: nat, n: nat)
  {
    s + n <= |bits| && forall k | s <= k < s + n :: !bits[k]
  }

  /** The first start at or after s at which n bits are free; starts range over the bitmap proper. */
  function FindRun(bits: seq<bool>, n: nat, s: nat): (r: Option<nat>)
    decreases |bits| - s
  {
    if s + 64 >= |bits| then None
    else if RunFree(bits, s, n) then Some(s)
    else FindRun(bits, n, s + 1)
  }

  lemma FindRunStep(bits: seq<bool>, n: nat, s: nat)
    ensures s + 64 >= |bits| ==> FindRun(bits, n, s) == None
    ensures s + 64 < |bits| ==> FindRun(bits, n, s) == if RunFree(bits, s, n) then Some(s) else FindRun(bits, n, s + 1)
  {
  }

  /** First fit: the least free run is found, and None means that there is none. */
  lemma {:induction false} FindRunIsFirstFit(bits: seq<bool>, n: nat, s: nat)
    ensures FindRun(bits, n, s).None? <==>
            forall t: nat | s <= t < |bits| - 64 :: !RunFree(bits, t, n)
    ensures forall t :: FindRun(bits, n, s) == Some(t) <==>
                        && s <= t < |bits| - 64 && RunFree(bits, t, n)
                        && forall u: nat | s <= u < t :: !RunFree(bits, u, n)
    decreases |bits| - s
  {
    if s + 64 < |bits| && !RunFree(bits, s, n) {
      FindRunIsFirstFit(bits, n, s + 1);
    }
  }

  // ----- allocation and release as functions of the state -----

  /** Rejected: number out of range. Overrun: the run found crosses the end of the Page array. */
  datatype AllocResult = Rejected | NoRun | Overrun(first: nat) | Run(start: nat, state: FrameState)

  function TakeRun(fs: FrameState, s: nat, n: nat, flags: nat): (r: FrameState)
    requires |fs.refs| == fs.NoPage()
  {
    FrameState(
      seq(|fs.bits|, i requires 0 <= i < |fs.bits| => fs.bits[i] || s <= i < s + n),
      fs.used + n,
      seq(|fs.attr|, i requires 0 <= i < |fs.attr| => if s <= i < s + n then flags else fs.attr[i]),
      seq(|fs.refs|, i requires 0 <= i < |fs.refs| => if s <= i < s + n then fs.refs[i] + 1 else fs.refs[i]))
  }

  lemma TakeNone(fs: FrameState, s: nat, flags: nat)
    requires |fs.refs| == fs.NoPage()
    ensures var r := TakeRun(fs, s, 0, flags); r.bits == fs.bits && r.attr == fs.attr && r.refs == fs.refs
  {
  }

  lemma TakeUsed(fs: FrameState, s: nat, n: nat, flags: nat)
    requires |fs.refs| == fs.NoPage()
    ensures TakeRun(fs, s, n, flags).used == fs.used + n
  {
  }

  lemma TakeOneMore(fs: FrameState, s: nat, k: nat, flags: nat)
    requires |fs.refs| == fs.NoPage() <= |fs.bits| && s + k < fs.NoPage()
    ensures var r := TakeRun(fs, s, k, flags);
      && |r.bits| == |fs.bits| && |r.attr| == |fs.attr| && |r.refs| == |fs.refs|
      && TakeRun(fs, s, k + 1, flags).bits == r.bits[s + k := true]
      && TakeRun(fs, s, k + 1, flags).attr == r.attr[s + k := flags]
      && TakeRun(fs, s, k + 1, flags).refs == r.refs[s + k := r.refs[s + k] + 1]
  {
  }

  function Alloc(fs: FrameState, number: int, flags: nat): (r: AllocResult)
    requires |fs.refs| == fs.NoPage()
  {
    if number < 1 || number > 63 then Rejected
    else match FindRun(fs.bits, number, 0)
      case None => NoRun
      case Some(s) => if s + number > fs.NoPage() then Overrun(s) else Run(s, TakeRun(fs, s, number, flags))
  }

  /** Refused: number out of range. Beyond: there is no such frame, the source reads behind the Page
      array. Hang: the address is not a frame's, the source spins for ever. */
  datatype FreeResult = Refused | Beyond | Hang | Freed(state: FrameState)

  /** The address is not advanced between the rounds of the loop, so every round clears the same
      frame; Used_Pages still drops by number. */
  function Release(fs: FrameState, phys: nat, number: int): (r: FreeResult)
    requires |fs.refs| == fs.NoPage() <= |fs.bits|
  {
    if number >= 64 || number <= 0 then Refused
    else if phys / PAGE_2M >= fs.NoPage() then Beyond
    else if phys % PAGE_2M != 0 then Hang
    else var p := phys / PAGE_2M;
      Freed(FrameState(fs.bits[p := false], fs.used - number, fs.attr[p := 0], fs.refs[p := 0]))
  }

  // ----- what the operations keep -----

  lemma {:induction false} CountRun(b: seq<bool>, c: seq<bool>, s: nat, n: nat)
    requires |b| == |c| && s + n <= |b|
    requires forall k | s <= k < s + n :: !b[k] && c[k]
    requires forall k | 0 <= k < |b| && !(s <= k < s + n) :: c[k] == b[k]
    ensures CountSet(c) == CountSet(b) + n
    decreases n
  {
    if n == 0 {
      assert b == c;
    } else {
      var d := b[s := true];
      CountSetUpdate(b, s, true);
      CountRun(d, c, s + 1, n - 1);
    }
  }

  /** A successful allocation is the first fit, changes exactly the frames of the run, and keeps
      the books consistent. */
  lemma AllocCorrect(fs: FrameState, number: int, flags: nat)
    requires fs.Consistent()
    ensures var r := Alloc(fs, number, flags);
      && (r.Rejected? <==> !(1 <= number <= 63))
      && (r.NoRun? ==> forall s: nat | s < fs.Limit() :: !RunFree(fs.bits, s, number))
      && (r.Run? ==>
            && r.start + number <= fs.NoPage()
            && RunFree(fs.bits, r.start, number)
            && (forall s: nat | s < r.start :: !RunFree(fs.bits, s, number))
            && r.state.Consistent() && r.state.NoPage() == fs.NoPage() && |r.state.bits| == |fs.bits|
            && (forall k | 0 <= k < |fs.bits| :: r.state.bits[k] == (fs.bits[k] || r.start <= k < r.start + number)))
  {
    FindRunIsFirstFit(fs.bits, if number < 0 then 0 else number, 0);
    var r := Alloc(fs, number, flags);
    if r.Run? {
      CountRun(fs.bits[..fs.NoPage()], r.state.bits[..fs.NoPage()], r.start, number);
    }
  }

  /** The frames of the run get the attributes and one more reference, and the others keep theirs. */
  lemma AllocMarks(fs: FrameState, number: int, flags: nat)
    requires fs.Consistent() && Alloc(fs, number, flags).Run?
    ensures var r := Alloc(fs, number, flags);
      && r.state.NoPage() == fs.NoPage() == |r.state.refs| && r.state.used == fs.used + number
      && forall k | 0 <= k < fs.NoPage() ::
           var inRun := r.start <= k < r.start + number;
           r.state.attr[k] == (if inRun then flags else fs.attr[k]) && r.state.refs[k] == fs.refs[k] + if inRun then 1 else 0
  {
    hide FindRun;
  }

  /** One frame at a time the window cannot leave the bitmap, whatever follows it in memory. */
  lemma AllocOne(fs: FrameState, flags: nat)
    requires fs.Consistent()
    ensures var r := Alloc(fs, 1, flags);
      && (r.NoRun? || r.Run?)
      && (r.NoRun? <==> forall k: nat :: !fs.Free(k))
      && (r.Run? ==> && fs.Free(r.start) && (forall k: nat | k < r.start :: !fs.Free(k))
                     && r.state.Consistent() && r.state.NoPage() == fs.NoPage()
                     && r.state.bits == fs.bits[r.start := true])
  {
    AllocCorrect(fs, 1, flags);
    FindRunIsFirstFit(fs.bits, 1, 0);
    var r := Alloc(fs, 1, flags);
    assert forall k: nat | k < fs.Limit() :: RunFree(fs.bits, k, 1) <==> !fs.bits[k];
    if r.NoRun? {
      forall k: nat ensures !fs.Free(k) {
        if k < fs.Limit() { assert !RunFree(fs.bits, k, 1); }
      }
    } else if r.Run? {
      assert fs.Free(r.start);
    }
  }

  /** A state whose only free frames are the last n - 1 ones. */
  function LastFree(noPage: nat, guard: Word, n: nat): (fs: FrameState)
    requires 1 <= n <= 63
  {
    var limit := (noPage + 63) / 64 * 64;
    var bits := seq(limit, k => !(noPage - n + 1 <= k < noPage)) + guard;
    FrameState(bits, CountSet(bits[..noPage]), seq(noPage, _ => 0),
      seq(noPage, k requires 0 <= k < noPage => if bits[k] then 1 else 0))
  }

  lemma LastFreeOverruns(noPage: nat, guard: Word, n: nat)
    requires 2 <= n <= 63 && noPage > 0 && noPage % 64 == 0 && !guard[0]
    ensures var fs := LastFree(noPage, guard, n);
      && fs.Consistent() && fs.NoPage() == noPage && fs.bits[fs.Limit()..] == guard
      && Alloc(fs, n, 0) == Overrun(noPage - n + 1)
  {
    var fs := LastFree(noPage, guard, n);
    var s := noPage - n + 1;
    assert fs.bits[noPage..] == guard;
    assert fs.bits[noPage] == guard[0];
    FindRunIsFirstFit(fs.bits, n, 0);
    assert RunFree(fs.bits, s, n);
    forall u: nat | u < s ensures !RunFree(fs.bits, u, n) { assert fs.bits[u]; }
  }

  lemma RunStopsAtSetBit(fs: FrameState, flags: nat, number: nat)
    requires fs.Consistent() && 1 <= number <= 63
    requires number == 1 || fs.NoPage() % 64 != 0 || fs.bits[fs.Limit()]
    ensures !Alloc(fs, number, flags).Overrun?
  {
    FindRunIsFirstFit(fs.bits, number, 0);
    var r := FindRun(fs.bits, number, 0);
    if r.Some? {
      assert !fs.bits[r.value];
      assert number == 1 || fs.bits[fs.NoPage()];
    }
  }

  /** The word behind the bitmap matters exactly when the bitmap has no padding bit of its own and
      the word's lowest bit is clear: only then can a run of several frames be found that leaves
      the Page array. */
  lemma AllocStaysInside(noPage: nat, guard: Word, number: nat)
    requires 1 <= number <= 63 && noPage > 0
    ensures (forall fs: FrameState, flags: nat {:trigger Alloc(fs, number, flags)} |
               fs.Consistent() && fs.NoPage() == noPage && fs.bits[fs.Limit()..] == guard ::
               !Alloc(fs, number, flags).Overrun?)
        <==> (number == 1 || noPage % 64 != 0 || guard[0])
  {
    if number == 1 || noPage % 64 != 0 || guard[0] {
      forall fs: FrameState, flags: nat {:trigger Alloc(fs, number, flags)} |
               fs.Consistent() && fs.NoPage() == noPage && fs.bits[fs.Limit()..] == guard
        ensures !Alloc(fs, number, flags).Overrun?
      {
        assert fs.bits[fs.Limit()] == guard[0];
        RunStopsAtSetBit(fs, flags, number);
      }
    } else {
      LastFreeOverruns(noPage, guard, number);
      assert Alloc(LastFree(noPage, guard, number), number, 0).Overrun?;
    }
  }

  /** Releasing keeps the books consistent exactly when one frame is released and it was in use. */
  lemma ReleaseConsistentIff(fs: FrameState, phys: nat, number: int)
    requires fs.Consistent() && phys / PAGE_2M < fs.NoPage()
    requires Release(fs, phys, number).Freed?
    ensures Release(fs, phys, number).state.Consistent()
        <==> number == 1 && fs.Allocated(phys / PAGE_2M)
    ensures var fs' := Release(fs, phys, number).state;
      && fs'.NoPage() == fs.NoPage() && fs'.Free(phys / PAGE_2M)
      && (forall k: nat | k != phys / PAGE_2M :: fs'.Allocated(k) <==> fs.Allocated(k))
      && (forall k: nat | k < fs.NoPage() && k != phys / PAGE_2M :: fs'.attr[k] == fs.attr[k] && fs'.refs[k] == fs.refs[k])
  {
    var fs' := Release(fs, phys, number).state;
    var p := phys / PAGE_2M;
    assert fs'.bits[..fs.NoPage()] == fs.bits[..fs.NoPage()][p := false];
    CountSetUpdate(fs.bits[..fs.NoPage()], p, false);
  }

  /** Releasing the frame just allocated restores the bitmap and the count. */
  lemma AllocReleaseRoundTrip(fs: FrameState, flags: nat)
    requires fs.Consistent() && Alloc(fs, 1, flags).Run?
    ensures var r := Alloc(fs, 1, flags); Release(r.state, r.start * PAGE_2M, 1) == Freed(fs)
  {
    AllocOne(fs, flags);
    var r := Alloc(fs, 1, flags);
    var f := Release(r.state, r.start * PAGE_2M, 1).state;
    assert f.bits == fs.bits;
    assert f.attr == fs.attr;
    assert f.refs == fs.refs;
  }

  // ----- the allocator itself -----

  /** Masking the window with the low `number` ones tests the run that starts at bit p. */
  lemma MaskedWindow(w: Word, bits: seq<bool>, p: nat, number: nat)
    requires p + 64 <= |bits| && number <= 64
    requires forall k | 0 <= k < 64 :: w[k] == bits[p + k]
    ensures And(w, LowMask(number)) == ZERO <==> RunFree(bits, p, number)
  {
    var hit := And(w, LowMask(number));
    if hit == ZERO {
      forall k | p <= k < p + number ensures !bits[k] {
        assert !hit[k - p];
      }
    } else {
      var k :| 0 <= k < 64 && hit[k];
      assert bits[p + k];
    }
  }

  class FrameAllocator {
    var bits: array<Word>   // the words of the bitmap and the word behind them
    var attr: array<nat>    // Page[i].Attr
    var refs: array<nat>    // Page[i].Ref_Count
    var used: int           // Used_Pages

    ghost predicate Valid()
      reads this, bits, attr, refs
    {
      && bits != attr as object && bits != refs as object && attr != refs
      && View().WellFormed()
    }

    ghost function View(): FrameState
      reads this, bits, attr, refs
    {
      FrameState(Bits(bits[..]), used, attr[..], refs[..])
    }

    ghost function Repr(): set<object>
      reads this
    {
      {this, bits, attr, refs}
    }

    /** The window of 64 bits that starts at bit j of word i. */
    method Window(i: nat, j: nat) returns (w: Word)
      requires Valid() && i + 1 < bits.Length && j < 64
      ensures forall k | 0 <= k < 64 :: w[k] == View().bits[64 * i + j + k]
    {
      w := if j != 0 then Or(Shr(bits[i], j), Shl(bits[i + 1], 64 - j)) else bits[i];
      forall k | 0 <= k < 64 ensures w[k] == View().bits[64 * i + j + k] {
        var t := 64 * i + j + k;
        if j + k < 64 {
          assert t / 64 == i && t % 64 == j + k;
        } else {
          assert t / 64 == i + 1 && t % 64 == j + k - 64;
        }
      }
    }

    method RunStartsAt(i: nat, j: nat, number: nat) returns (hit: bool)
      requires Valid() && i + 1 < bits.Length && j < 64 && number <= 63
      ensures hit == RunFree(View().bits, 64 * i + j, number)
    {
      var w := Window(i, j);
      MaskedWindow(w, View().bits, 64 * i + j, number);
      hit := And(w, LowMask(number)) == ZERO;
    }

    /** The inner loop of the search: the bit offsets of one word. */
    method SearchWord(i: nat, number: nat) returns (r: Option<nat>)
      requires Valid() && number <= 63 && i < bits.Length - 1
      ensures r.Some? ==> FindRun(View().bits, number, 64 * i) == r
      ensures r.None? ==> FindRun(View().bits, number, 64 * i) == FindRun(View().bits, number, 64 * i + 64)
    {
      ghost var all := View().bits;
      hide Bits, RunFree, FindRun;
      var j := 0;
      while j < 64
        invariant 0 <= j <= 64
        invariant FindRun(all, number, 64 * i) == FindRun(all, number, 64 * i + j)
      {
        var hit := RunStartsAt(i, j, number);
        FindRunStep(all, number, 64 * i + j);
        if hit {
          return Some(64 * i + j);
        }
        j := j + 1;
      }
      r := None;
    }

    /** The outer loop, over the words. */
    method Search(number: nat) returns (r: Option<nat>)
      requires Valid() && number <= 63
      ensures r == FindRun(View().bits, number, 0)
    {
      var i := 0;
      while i < bits.Length - 1
        invariant 0 <= i <= bits.Length - 1
        invariant FindRun(View().bits, number, 0) == FindRun(View().bits, number, 64 * i)
      {
        r := SearchWord(i, number);
        if r.Some? {
          return;
        }
        i := i + 1;
      }
      FindRunStep(View().bits, number, 64 * i);
      r := None;
    }

    /** alloc_pages. wild tells that the run found leaves the Page array: what the source then writes
        behind it is not modelled. */
    method AllocPages(number: int, flags: nat) returns (r: Option<nat>, wild: bool)
      requires Valid()
      modifies this`used, bits, attr, refs
      ensures Valid() && bits == old(bits) && attr == old(attr) && refs == old(refs)
      ensures match Alloc(old(View()), number, flags)
        case Run(s, fs) => r == Some(s) && !wild && View() == fs
        case Overrun(_) => wild
        case _ => r == None && !wild && View() == old(View())
    {
      wild := false;
      if number < 1 || number > 63 {
        return None, false;
      }
      r := Search(number);
      if r.Some? {
        FindRunIsFirstFit(View().bits, number, 0);
        wild := r.value + number > attr.Length;
        if !wild { MarkRun(r.value, number, flags); }
      }
    }

    /** One page of the run. */
    method MarkOne(p: nat, flags: nat)
      requires Valid() && p < View().NoPage()
      modifies bits, attr, refs
      ensures Valid() && Bits(bits[..]) == old(Bits(bits[..]))[p := true]
      ensures attr[..] == old(attr[..])[p := flags] && refs[..] == old(refs[..])[p := old(refs[p]) + 1]
    {
      BitsUpdate(bits[..], p, true);
      bits[p / 64] := bits[p / 64][p % 64 := true];
      attr[p] := flags;
      refs[p] := refs[p] + 1;
    }

    method MarkRun(s: nat, number: nat, flags: nat)
      requires Valid() && s + number <= View().NoPage()
      modifies this`used, bits, attr, refs
      ensures Valid() && bits == old(bits) && attr == old(attr) && refs == old(refs)
      ensures View() == TakeRun(old(View()), s, number, flags)
    {
      ghost var before := old(View());
      TakeNone(before, s, flags);
      used := used + number;
      var k := 0;
      hide TakeRun, Bits;
      while k < number
        invariant 0 <= k <= number && Valid() && used == before.used + number
        invariant Bits(bits[..]) == TakeRun(before, s, k, flags).bits
        invariant attr[..] == TakeRun(before, s, k, flags).attr
        invariant refs[..] == TakeRun(before, s, k, flags).refs
      {
        TakeOneMore(before, s, k, flags);
        MarkOne(s + k, flags);
        k := k + 1;
      }
      TakeUsed(before, s, number, flags);
    }

    /** free_pages. lost tells that the source does not come back, or reads behind the Page array. */
    method FreePages(phys: nat, number: int) returns (ok: bool, lost: bool)
      requires Valid()
      modifies this`used, bits, attr, refs
      ensures Valid() && bits == old(bits) && attr == old(attr) && refs == old(refs)
      ensures match Release(old(View()), phys, number)
        case Freed(fs) => ok && !lost && View() == fs
        case Refused => !ok && !lost && View() == old(View())
        case _ => lost
    {
      ok, lost := false, false;
      if number >= 64 || number <= 0 {
        return;
      }
      used := used - number;
      ghost var before := old(View());
      var i := 0;
      while i < number
        invariant 0 <= i <= number
        invariant used == before.used - number
        invariant i == 0 ==> Bits(bits[..]) == before.bits && attr[..] == before.attr && refs[..] == before.refs
        invariant i > 0 ==> var fs := Release(before, phys, number);
                            fs.Freed? && Bits(bits[..]) == fs.state.bits && attr[..] == fs.state.attr && refs[..] == fs.state.refs
      {
        var p := phys / PAGE_2M;
        if p >= attr.Length || phys % PAGE_2M != 0 {
          return false, true;
        }
        BitsUpdate(bits[..], p, false);
        bits[p / 64] := bits[p / 64][p % 64 := false];
        attr[p] := 0;
        refs[p] := 0;
        i := i + 1;
      }
      ok := true;
    }
  }
}
