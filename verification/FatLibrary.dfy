/** Any sequence of seeks and writes to many files (Kernel/fat32.c: FAT32_write, FAT32_lseek), with a
    search for free clusters that reads the table. */
module FatLibrary {
  import opened Words
  import opened FatFiles
  import opened FatRoundTrip

  /** A volume and its open files. */
  datatype Store = Store(vol: Volume, files: map<nat, File>)

  datatype Op = WriteOp(n: nat, buf: seq<byte>) | SeekOp(n: nat, pos: nat)

  /** One call; None if it asks the disk for a cluster outside the volume. */
  function Do(s: Store, b: nat, op: Op): (r: Option<Store>)
    requires b > 0
  {
    if op.n !in s.files then Some(s)
    else match op
      case WriteOp(n, buf) =>
        (match Write(s.vol, b, s.files[n], buf, ReadDma)
         case WriteFails => None
         case WriteReturns(_, f1, w) => Some(Store(w, s.files[n := f1])))
      case SeekOp(n, pos) => Some(s.(files := s.files[n := Seek(s.files[n], pos).1]))
  }

  /** f is a file on this chain, or a file without clusters. */
  ghost predicate FileIn(v: Volume, f: File, chain: seq<nat>)
  {
    if f.first == 0 then chain == [] && f.pos == 0 && f.size == 0
    else
      && chain != [] && f.first == chain[0] && Chain(v, chain)
      && f.pos <= |Contents(v, chain)| && f.size <= |Contents(v, chain)|
  }

  /** Every file has its chain, chains of different files share no cluster, and the table has no free
      entry beyond the data clusters. */
  ghost predicate Kept(s: Store, b: nat, chains: map<nat, seq<nat>>)
  {
    && WellFormed(s.vol, b) && !Spare(s.vol) && chains.Keys == s.files.Keys
    && (forall n | n in s.files :: FileIn(s.vol, s.files[n], chains[n]))
    && (forall m, n | m in chains && n in chains && m != n :: Apart(chains[m], chains[n]))
  }

  /** What a write to a file on the chain own, now own + more, did. */
  ghost predicate Wrote1(v: Volume, b: nat, own: seq<nat>, w: Volume, f1: File, more: seq<nat>)
  {
    && WellFormed(w, b) && !Spare(w) && FileIn(w, f1, own + more)
    && exists touched :: Framed(v, w, touched, more) && (forall c | c in touched :: c in own || c < 2)
  }

  lemma SpareKept(v: Volume, w: Volume, touched: seq<nat>, more: seq<nat>, own: seq<nat>)
    requires !Spare(v) && Framed(v, w, touched, more) && forall c | c in touched :: c in own || c < 2
    requires forall c | c in own :: Inside(v, c)
    ensures !Spare(w)
  {
  }

  /** The first write to an empty file. */
  lemma FirstWriteKept(v: Volume, b: nat, f: File, buf: seq<byte>) returns (more: seq<nat>)
    requires f.first == 0 && FileIn(v, f, []) && !Spare(v) && WellFormed(v, b)
    ensures var r := Write(v, b, f, buf, ReadDma); r.WriteReturns? && Wrote1(v, b, [], r.vol, r.file, more)
  {
    FirstFreeIs(v.table, 0);
    var x := FirstFree(v.table, 0);
    var w := Write(v, b, f, buf, ReadDma).vol;
    if x < |v.table| {
      assert Inside(v, x);
      more := [x];
      assert [] + [x] == [x];
      assert Framed(v, w, [], [x]);
    } else {
      more := [];
      assert Framed(v, w, [0], []);
    }
  }

  /** The volume and the position after a write do not depend on the file's size. */
  lemma SizeFree(v: Volume, b: nat, f: File, size: nat, buf: seq<byte>)
    requires b > 0 && f.first != 0
    ensures var r, t := Write(v, b, f, buf, ReadDma), Write(v, b, f.(size := size), buf, ReadDma);
      && (r.WriteFails? <==> t.WriteFails?)
      && (r.WriteReturns? ==> r.vol == t.vol && r.file.pos == t.file.pos && r.file.first == f.first)
      && (r.WriteReturns? ==> r.file.size == f.size || r.file.size == r.file.pos)
  {
  }

  lemma EmptyWriteKept(v: Volume, b: nat, f: File, chain: seq<nat>)
    requires f.first != 0 && FileIn(v, f, chain) && !Spare(v) && WellFormed(v, b)
    ensures var r := Write(v, b, f, [], ReadDma); r.WriteReturns? && Wrote1(v, b, chain, r.vol, r.file, [])
  {
    assert chain + [] == chain;
    assert Framed(v, v, [], []);
  }

  lemma FileInFrom(v: Volume, w: Volume, f: File, f1: File, g1: File, chain: seq<nat>, more: seq<nat>, was: nat)
    requires FileOf(w, Grown(f, g1), chain + more) && f1.pos == g1.pos && f1.first == f.first == g1.first != 0
    requires f1.size == was || f1.size == f1.pos
    requires was <= |Contents(w, chain + more)|
    ensures FileIn(w, f1, chain + more)
  {
  }

  /** A write to a file with clusters. Only volume and position matter, so the size does not have to be
      beyond the position, which it is not after a write that ran out of space. */
  lemma LaterWriteKept(v: Volume, b: nat, f: File, chain: seq<nat>, buf: seq<byte>) returns (more: seq<nat>)
    requires f.first != 0 && FileIn(v, f, chain) && !Spare(v) && WellFormed(v, b)
    ensures var r := Write(v, b, f, buf, ReadDma); r.WriteReturns? ==> Wrote1(v, b, chain, r.vol, r.file, more)
  {
    more := [];
    var g := f.(size := |Contents(v, chain)|);
    Covered(v, f, chain);
    hide Contents, Chain, WellFormed, Write, Spare, Index, Offset, FileOf, FileIn, Wrote1, Laid, Start, Fits, Replaced;
    SizeFree(v, b, f, g.size, buf);
    if buf == [] {
      EmptyWriteKept(v, b, f, chain);
    } else if f.pos == g.size {
      WriteBehindFails(v, b, g, chain, buf, ReadDma);
    } else {
      more := WriteExact(v, b, g, chain, buf);
      InsideWriteKept(v, b, f, g, chain, buf, more);
    }
  }

  lemma Covered(v: Volume, f: File, chain: seq<nat>)
    requires f.first != 0 && FileIn(v, f, chain)
    ensures FileOf(v, f.(size := |Contents(v, chain)|), chain) && f.pos <= |Contents(v, chain)| && f.size <= |Contents(v, chain)|
  {
  }

  lemma InsideWriteKept(v: Volume, b: nat, f: File, g: File, chain: seq<nat>, buf: seq<byte>, more: seq<nat>)
    requires b > 0 && g == f.(size := |Contents(v, chain)|) && f.first != 0 && f.size <= g.size
    requires Index(g.pos, b) < |chain| && Start(b, g.pos, |buf|) >= 0 && !Spare(v) && FileOf(v, g, chain)
    requires WrittenTo(v, b, g, chain, buf, Write(v, b, g, buf, ReadDma), more)
    ensures var r := Write(v, b, f, buf, ReadDma); r.WriteReturns? ==> Wrote1(v, b, chain, r.vol, r.file, more)
  {
    hide WellFormed, Write, Contents, Index, Offset, Laid, Start, Fits, Framed, Spare, FirstFree, Replaced, FileIn;
    var r, t := Write(v, b, f, buf, ReadDma), Write(v, b, g, buf, ReadDma);
    SizeFree(v, b, f, g.size, buf);
    StartBefore(b, g.pos, |buf|);
    if r.WriteReturns? {
      AtLeastAsLong(Contents(r.vol, chain + more), Contents(v, chain), Start(b, g.pos, |buf|),
                    Laid(v, b, chain[Index(g.pos, b)], g.pos, buf), t.file.pos - Start(b, g.pos, |buf|), b, more != []);
      FileInFrom(v, r.vol, g, r.file, t.file, chain, more, f.size);
      ChainInside(v, chain);
      SpareKept(v, r.vol, chain, more, chain);
    }
  }

  lemma StartBefore(b: nat, pos: nat, n: nat)
    requires b > 0
    ensures Start(b, pos, n) <= pos
  {
  }

  lemma AtLeastAsLong(all: seq<byte>, was: seq<byte>, pos: nat, buf: seq<byte>, n: nat, b: nat, grown: bool)
    requires Replaced(all, was, pos, buf, n, b, grown)
    ensures |was| <= |all|
  {
  }

  lemma ChainInside(v: Volume, chain: seq<nat>)
    requires Chain(v, chain)
    ensures forall c | c in chain :: Inside(v, c)
  {
  }

  // ----- sequences -----

  /** The chains after a call on file n: only its chain may be longer, and nobody else's contents
      changed. */
  ghost predicate Advanced(s: Store, chains: map<nat, seq<nat>>, t: Store, chains': map<nat, seq<nat>>, n: nat)
  {
    && chains'.Keys == chains.Keys
    && (forall m | m in chains :: chains[m] <= chains'[m])
    && (forall m | m in chains && m != n :: chains'[m] == chains[m] && Contents(t.vol, chains[m]) == Contents(s.vol, chains[m]))
  }

  lemma OtherFileKept(v: Volume, w: Volume, b: nat, own: seq<nat>, f1: File, more: seq<nat>, f: File, chain: seq<nat>)
    requires Wrote1(v, b, own, w, f1, more) && FileIn(v, f, chain) && Apart(chain, own)
    ensures FileIn(w, f, chain) && Contents(w, chain) == Contents(v, chain)
    ensures Apart(chain, own + more) && Apart(own + more, chain)
  {
    hide WellFormed, Spare;
    var touched :| Framed(v, w, touched, more) && (forall c | c in touched :: c in own || c < 2);
    if chain != [] {
      hide Contents;
      ChainInside(v, chain);
      OthersUntouched(v, w, touched, more, chain);
    }
  }

  lemma WriteKept(s: Store, b: nat, chains: map<nat, seq<nat>>, n: nat, w: Volume, f1: File, more: seq<nat>)
    requires n in chains && Wrote1(s.vol, b, chains[n], w, f1, more) && Kept(s, b, chains)
    ensures var t, chains' := Store(w, s.files[n := f1]), chains[n := chains[n] + more];
      Kept(t, b, chains') && Advanced(s, chains, t, chains', n)
  {
    hide WellFormed, Spare, FileIn, Wrote1, Contents, Apart;
    var t, chains' := Store(w, s.files[n := f1]), chains[n := chains[n] + more];
    WroteParts(s.vol, b, chains[n], w, f1, more);
    forall m | m in chains && m != n
      ensures FileIn(w, s.files[m], chains[m]) && Contents(w, chains[m]) == Contents(s.vol, chains[m])
      ensures Apart(chains[m], chains'[n]) && Apart(chains'[n], chains[m])
    {
      assert Apart(chains[m], chains[n]);
      OtherFileKept(s.vol, w, b, chains[n], f1, more, s.files[m], chains[m]);
    }
  }

  lemma WroteParts(v: Volume, b: nat, own: seq<nat>, w: Volume, f1: File, more: seq<nat>)
    requires Wrote1(v, b, own, w, f1, more)
    ensures WellFormed(w, b) && !Spare(w) && FileIn(w, f1, own + more)
  {
  }

  /** One call. */
  lemma DoKept(s: Store, b: nat, chains: map<nat, seq<nat>>, op: Op) returns (chains': map<nat, seq<nat>>)
    requires b > 0 && Kept(s, b, chains) && Do(s, b, op).Some?
    ensures Kept(Do(s, b, op).value, b, chains') && Advanced(s, chains, Do(s, b, op).value, chains', op.n)
  {
    chains' := chains;
    hide WellFormed, Spare, Contents, Write, Apart, Wrote1;
    if op.n in s.files {
      var f := s.files[op.n];
      assert FileIn(s.vol, f, chains[op.n]);
      match op {
        case SeekOp(n, pos) =>
          assert FileIn(s.vol, Seek(f, pos).1, chains[n]);
        case WriteOp(n, buf) =>
          var more;
          if f.first == 0 {
            assert chains[n] == [];
            more := FirstWriteKept(s.vol, b, f, buf);
          } else {
            more := LaterWriteKept(s.vol, b, f, chains[n], buf);
          }
          var r := Write(s.vol, b, f, buf, ReadDma);
          hide FileIn;
          WriteKept(s, b, chains, n, r.vol, r.file, more);
          chains' := chains[n := chains[n] + more];
      }
    }
  }

  function Run(s: Store, b: nat, ops: seq<Op>): (r: Option<Store>)
    requires b > 0
    decreases |ops|
  {
    if ops == [] then Some(s)
    else match Do(s, b, ops[0])
      case None => None
      case Some(t) => Run(t, b, ops[1..])
  }

  /** After any sequence of seeks and writes every file has a chain that ends and only grew, no two
      chains share a cluster, and a file that was not written holds what it held. */
  lemma {:induction false} RunKept(s: Store, b: nat, chains: map<nat, seq<nat>>, ops: seq<Op>) returns (chains': map<nat, seq<nat>>)
    requires b > 0 && Kept(s, b, chains) && Run(s, b, ops).Some?
    ensures var t := Run(s, b, ops).value;
      && Kept(t, b, chains') && chains'.Keys == chains.Keys && (forall m | m in chains :: chains[m] <= chains'[m])
      && forall m | m in chains && (forall i | 0 <= i < |ops| :: ops[i].n != m) ::
           chains'[m] == chains[m] && Contents(t.vol, chains[m]) == Contents(s.vol, chains[m])
    decreases |ops|
  {
    chains' := chains;
    hide Kept, Contents, Do;
    if ops != [] {
      var t := Do(s, b, ops[0]).value;
      var chains1 := DoKept(s, b, chains, ops[0]);
      chains' := RunKept(t, b, chains1, ops[1..]);
      forall m | m in chains && (forall i | 0 <= i < |ops| :: ops[i].n != m)
        ensures chains'[m] == chains[m] && Contents(Run(s, b, ops).value.vol, chains[m]) == Contents(s.vol, chains[m])
      {
        assert ops[0].n != m;
        assert forall i | 0 <= i < |ops[1..]| :: ops[1..][i] == ops[i + 1];
      }
    }
  }
}
