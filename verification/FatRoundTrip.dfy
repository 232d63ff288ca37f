/** What FAT32_write and FAT32_read do to whole files (Kernel/fat32.c). */
module FatRoundTrip {
  import opened Words
  import opened FatFiles

  // ----- a write in the middle of a chain -----

  /** `was` with n bytes of buf at pos; grown tells that clusters of b bytes were added behind. */
  ghost predicate Replaced(all: seq<byte>, was: seq<byte>, pos: nat, buf: seq<byte>, n: nat, b: nat, grown: bool)
  {
    && pos <= |was| && n <= |buf| && pos + n <= |all| && all[..pos] == was[..pos] && all[pos..pos + n] == buf[..n]
    && (!grown ==> pos + n <= |was| && all == was[..pos] + buf[..n] + was[pos + n..])
    && (grown ==> |was| <= pos + n && |all| < pos + n + b)
  }

  lemma LandedBehind(x: seq<byte>, all: seq<byte>, was: seq<byte>, buf: seq<byte>, n: nat, b: nat, grown: bool)
    requires Landed(all, was, buf, n, b, grown)
    ensures Replaced(x + all, x + was, |x|, buf, n, b, grown)
  {
  }

  /** The clusters before the place of a write keep their links and data. */
  lemma PrefixKept(v: Volume, w: Volume, chain: seq<nat>, k: nat, more: seq<nat>)
    requires |v.clusters| + 2 <= BAD && k < |chain| && Chain(v, chain)
    requires Framed(v, w, chain[k..], more) && Chain(w, chain[k..] + more)
    ensures Chain(w, chain + more) && Framed(v, w, chain, more)
    ensures Contents(w, chain + more) == Contents(v, chain[..k]) + Contents(w, chain[k..] + more)
  {
    PrefixApart(v, chain, k, more);
    PrefixLinks(v, w, chain, k, more);
    hide Chain;
    assert chain[..k] + (chain[k..] + more) == chain + more;
    ContentsSplit(w, chain[..k], chain[k..] + more);
    ContentsSame(v, w, chain[..k]);
  }

  lemma PrefixApart(v: Volume, chain: seq<nat>, k: nat, more: seq<nat>)
    requires |v.clusters| + 2 <= BAD && k < |chain| && Chain(v, chain)
    requires forall c | c in more :: c < |v.table| && v.table[c] == 0
    ensures forall i | 0 <= i < k :: Inside(v, chain[i]) && chain[i] < |v.table| && chain[i] !in chain[k..] && chain[i] !in more
  {
    ChainDistinct(v, chain);
    ChainNotFree(v, chain);
  }

  lemma PrefixLinks(v: Volume, w: Volume, chain: seq<nat>, k: nat, more: seq<nat>)
    requires k < |chain| && Chain(v, chain)
    requires forall i | 0 <= i < k :: Inside(v, chain[i]) && chain[i] < |v.table| && chain[i] !in chain[k..] && chain[i] !in more
    requires Framed(v, w, chain[k..], more) && Chain(w, chain[k..] + more)
    ensures Chain(w, chain + more) && Framed(v, w, chain, more)
    ensures |v.clusters| == |w.clusters| && forall i | 0 <= i < k :: v.clusters[chain[i] - 2] == w.clusters[chain[i] - 2]
  {
    FramedWider(v, w, chain, k, more);
    assert forall i | 0 <= i < k :: w.table[chain[i]] == v.table[chain[i]];
    assert forall i | 0 <= i < k :: v.clusters[chain[i] - 2] == w.clusters[chain[i] - 2];
    hide Framed, Contents;
    assert forall i | 0 <= i < k :: v.table[chain[i]] == chain[i + 1];
    PrefixChain(w, chain, k, more);
  }

  lemma PrefixChain(w: Volume, chain: seq<nat>, k: nat, more: seq<nat>)
    requires k < |chain| && Chain(w, chain[k..] + more)
    requires forall i | 0 <= i < k :: Inside(w, chain[i]) && chain[i] < |w.table| && w.table[chain[i]] == chain[i + 1]
    ensures Chain(w, chain + more)
  {
    var x, y := chain + more, chain[k..] + more;
    assert forall i | k <= i < |x| :: x[i] == y[i - k];
    assert chain[k] == y[0];
    forall i | 0 <= i < |x| - 1 ensures w.table[x[i]] == x[i + 1] {
      if i >= k { assert w.table[y[i - k]] == y[i - k + 1]; }
    }
  }

  lemma FramedWider(v: Volume, w: Volume, chain: seq<nat>, k: nat, more: seq<nat>)
    requires k < |chain| && Framed(v, w, chain[k..], more)
    requires forall i | 0 <= i < k :: chain[i] !in more
    ensures Framed(v, w, chain, more)
  {
  }

  /** No entry of a chain is free. */
  lemma ChainNotFree(v: Volume, chain: seq<nat>)
    requires Chain(v, chain)
    ensures forall i | 0 <= i < |chain| :: v.table[chain[i]] != 0
  {
    forall i | 0 <= i < |chain| ensures v.table[chain[i]] != 0 {
      if i < |chain| - 1 { assert Inside(v, chain[i + 1]); }
    }
  }

  /** Other files keep their chains and contents, and still share nothing with this one. */
  lemma OthersUntouched(v: Volume, w: Volume, own: seq<nat>, more: seq<nat>, other: seq<nat>)
    requires Framed(v, w, own, more) && Chain(v, other) && forall c | c in other :: c !in own
    ensures Chain(w, other) && Contents(w, other) == Contents(v, other)
    ensures forall c | c in other :: c !in own + more
  {
    ChainNotFree(v, other);
    assert forall i | 0 <= i < |other| :: other[i] in other && other[i] !in more;
    ContentsSame(v, w, other);
  }

  /** A write inside one cluster. */
  lemma WritesWithin(v: Volume, b: nat, own: seq<nat>, offset: nat, buf: seq<byte>, cmd: Command)
    requires Chain(v, own) && 0 < |buf| && offset + |buf| <= b && offset < b && WellFormed(v, b)
    ensures var r := WriteLoop(v, b, own[0], offset, buf, cmd);
      && r.WroteTo? && r.left == 0 && WellFormed(r.vol, b) && Chain(r.vol, own) && Framed(v, r.vol, own, [])
      && Replaced(Contents(r.vol, own), Contents(v, own), offset, buf, |buf|, b, false)
  {
    hide Chain, WellFormed, Contents, Framed, Replaced, Patch;
    NotEmpty(v, b, own);
    var c := own[0];
    var x := v.clusters[c - 2];
    assert buf[..|buf|] == buf;
    var y := Patch(x, offset, buf);
    FirstChanged(v, b, own, y);
    PatchedInside(x, Contents(v, own[1..]), offset, buf, b);
    assert WriteLoop(v, b, c, offset, buf, cmd) == WroteTo(v.(clusters := v.clusters[c - 2 := y]), 0);
  }

  lemma PatchedInside(x: seq<byte>, rest: seq<byte>, offset: nat, buf: seq<byte>, b: nat)
    requires offset + |buf| <= |x|
    ensures Replaced(Patch(x, offset, buf) + rest, x + rest, offset, buf, |buf|, b, false)
  {
  }

  lemma ReplacedBehind(x: seq<byte>, all: seq<byte>, was: seq<byte>, pos: nat, buf: seq<byte>, n: nat, b: nat)
    requires Replaced(all, was, pos, buf, n, b, false)
    ensures Replaced(x + all, x + was, |x| + pos, buf, n, b, false)
  {
  }

  /** Where a write is right: at the start of a cluster, or inside one. */
  predicate Fits(b: nat, pos: nat, n: nat)
    requires b > 0
  {
    Offset(pos, b) == 0 || n <= b - Offset(pos, b)
  }

  /** The loop of FAT32_write has put its bytes at pos in the file of this chain, as far as there was
      space, and touched nothing else. */
  ghost predicate WriteRight(v: Volume, b: nat, chain: seq<nat>, pos: nat, buf: seq<byte>, r: WriteRes, more: seq<nat>)
  {
    match r
    case WriteOutside => Spare(v)
    case WroteTo(w, left) =>
      && left <= |buf| && WellFormed(w, b) && Chain(w, chain + more) && Framed(v, w, chain, more)
      && Replaced(Contents(w, chain + more), Contents(v, chain), pos, buf, |buf| - left, b, more != [])
      && (left > 0 ==> FirstFree(w.table, 0) == |w.table|)
  }

  lemma LiftWrote(v: Volume, w: Volume, b: nat, chain: seq<nat>, k: nat, more: seq<nat>, buf: seq<byte>, n: nat)
    requires |v.clusters| + 2 <= BAD && k < |chain| && Chain(v, chain)
    requires Framed(v, w, chain[k..], more) && Chain(w, chain[k..] + more) && Wrote(v, w, b, chain[k..], more, buf, n)
    ensures Chain(w, chain + more) && Framed(v, w, chain, more)
    ensures Replaced(Contents(w, chain + more), Contents(v, chain), |Contents(v, chain[..k])|, buf, n, b, more != [])
  {
    hide Chain, Contents, Framed, Replaced, Landed;
    PrefixKept(v, w, chain, k, more);
    LandedBehind(Contents(v, chain[..k]), Contents(w, chain[k..] + more), Contents(v, chain[k..]), buf, n, b, more != []);
    JoinAt(v, chain, k);
  }

  lemma JoinAt(v: Volume, chain: seq<nat>, k: nat)
    requires k <= |chain|
    ensures Contents(v, chain) == Contents(v, chain[..k]) + Contents(v, chain[k..])
  {
    ContentsSplit(v, chain[..k], chain[k..]);
    assert chain[..k] + chain[k..] == chain;
  }

  lemma AlignedAt(v: Volume, b: nat, chain: seq<nat>, k: nat, buf: seq<byte>) returns (more: seq<nat>)
    requires k < |chain| && Chain(v, chain) && Chain(v, chain[k..]) && WellFormed(v, b)
    ensures WriteRight(v, b, chain, |Contents(v, chain[..k])|, buf, WriteLoop(v, b, chain[k], 0, buf, ReadDma), more)
  {
    hide Chain, WellFormed, Contents, Framed, WriteLoop, FirstFree, Replaced, Wrote;
    Limits(v, b);
    more := WritesInOrder(v, b, chain[k..], buf);
    var r := WriteLoop(v, b, chain[k], 0, buf, ReadDma);
    if r.WroteTo? { LiftWrote(v, r.vol, b, chain, k, more, buf, |buf| - r.left); }
  }

  lemma WithinAt(v: Volume, b: nat, chain: seq<nat>, k: nat, offset: nat, buf: seq<byte>, cmd: Command)
    requires k < |chain| && Chain(v, chain) && Chain(v, chain[k..]) && WellFormed(v, b)
    requires buf != [] && offset < b && |buf| <= b - offset
    ensures WriteRight(v, b, chain, |Contents(v, chain[..k])| + offset, buf, WriteLoop(v, b, chain[k], offset, buf, cmd), [])
  {
    hide Chain, WellFormed, Contents, Framed, WriteLoop, FirstFree, Replaced, Inside;
    Limits(v, b);
    var r := WriteLoop(v, b, chain[k], offset, buf, cmd);
    assert chain[k..][0] == chain[k];
    WritesWithin(v, b, chain[k..], offset, buf, cmd);
    LiftReplaced(v, r.vol, b, chain, k, offset, buf, |buf|);
    assert WriteRight(v, b, chain, |Contents(v, chain[..k])| + offset, buf, r, []);
  }

  lemma LiftReplaced(v: Volume, w: Volume, b: nat, chain: seq<nat>, k: nat, offset: nat, buf: seq<byte>, n: nat)
    requires |v.clusters| + 2 <= BAD && k < |chain| && Chain(v, chain)
    requires Framed(v, w, chain[k..], []) && Chain(w, chain[k..])
    requires Replaced(Contents(w, chain[k..]), Contents(v, chain[k..]), offset, buf, n, b, false)
    ensures Chain(w, chain + []) && Framed(v, w, chain, [])
    ensures Replaced(Contents(w, chain + []), Contents(v, chain), |Contents(v, chain[..k])| + offset, buf, n, b, false)
  {
    hide Chain, Contents, Framed, Replaced;
    assert chain[k..] + [] == chain[k..];
    PrefixKept(v, w, chain, k, []);
    ReplacedBehind(Contents(v, chain[..k]), Contents(w, chain[k..]), Contents(v, chain[k..]), offset, buf, n, b);
    JoinAt(v, chain, k);
  }

  lemma WriteNone(v: Volume, b: nat, chain: seq<nat>, pos: nat, c: nat, offset: nat)
    requires offset < b && pos <= |Contents(v, chain)| && Chain(v, chain) && WellFormed(v, b)
    ensures WriteRight(v, b, chain, pos, [], WriteLoop(v, b, c, offset, [], ReadDma), [])
  {
    var all := Contents(v, chain);
    assert chain + [] == chain;
    assert all == all[..pos] + [] + all[pos..];
  }

  /** Where the first byte of a write of n bytes at pos lands: at pos if the write starts a cluster or
      stays in one, else at the start of its cluster, since the offset is forgotten. */
  function Start(b: nat, pos: nat, n: nat): (r: int)
    requires b > 0
  {
    if Fits(b, pos, n) then pos else pos - Offset(pos, b)
  }

  /** The bytes that lie in the file from there on. In a write that leaves its first cluster c the
      bytes that went to the cluster's start are followed by what is left of its old contents. */
  function Laid(v: Volume, b: nat, c: nat, pos: nat, buf: seq<byte>): (r: seq<byte>)
    requires b > 0
    ensures |r| == |buf| + pos - Start(b, pos, |buf|)
  {
    var k := b - Offset(pos, b);
    if Fits(b, pos, |buf|) then buf
    else if !Inside(v, c) || |v.clusters[c - 2]| != b then buf + seq(Offset(pos, b), _ => 0)
    else buf[..k] + v.clusters[c - 2][k..] + buf[k..]
  }

  /** A write that leaves its first cluster is, byte for byte, an aligned write of more bytes. */
  lemma Crossing(v: Volume, b: nat, c: nat, offset: nat, buf: seq<byte>, cmd: Command)
    requires 0 < offset < b && |buf| > b - offset && Inside(v, c) && |v.clusters[c - 2]| == b
    ensures var k := b - offset;
      WriteLoop(v, b, c, offset, buf, cmd) == WriteLoop(v, b, c, 0, buf[..k] + v.clusters[c - 2][k..] + buf[k..], cmd)
  {
    var k, x := b - offset, v.clusters[c - 2];
    var laid := buf[..k] + x[k..] + buf[k..];
    assert laid[..b] == buf[..k] + x[k..] && laid[b..] == buf[k..];
    assert Patch(x, 0, laid[..b]) == Patch(x, 0, buf[..k]);
  }

  /** The loop of FAT32_write from any position in the chain. */
  lemma WriteAt(v: Volume, b: nat, chain: seq<nat>, pos: nat, buf: seq<byte>) returns (more: seq<nat>)
    requires b > 0 && pos < |Contents(v, chain)| && Chain(v, chain) && WellFormed(v, b)
    ensures Index(pos, b) < |chain| && Start(b, pos, |buf|) >= 0
    ensures WriteRight(v, b, chain, Start(b, pos, |buf|), Laid(v, b, chain[Index(pos, b)], pos, buf),
                       WriteLoop(v, b, Follow(v.table, chain[0], Index(pos, b)), Offset(pos, b), buf, ReadDma), more)
  {
    hide Chain, WellFormed, Contents, WriteLoop, Index, Offset, Follow, WriteRight;
    var x, tail := PositionParts(v, b, chain, pos);
    if buf == [] {
      more := [];
      WriteNone(v, b, chain, pos, Follow(v.table, chain[0], Index(pos, b)), Offset(pos, b));
    } else if Offset(pos, b) == 0 {
      more := AlignedAt(v, b, chain, Index(pos, b), buf);
    } else if Fits(b, pos, |buf|) {
      more := [];
      WithinAt(v, b, chain, Index(pos, b), Offset(pos, b), buf, ReadDma);
    } else {
      NotEmpty(v, b, tail);
      Crossing(v, b, tail[0], Offset(pos, b), buf, ReadDma);
      more := AlignedAt(v, b, chain, Index(pos, b), Laid(v, b, tail[0], pos, buf));
    }
  }

  // ----- FAT32_write -----

  /** f is a file in good order: its chain starts at its first cluster and covers its size. */
  ghost predicate FileOf(v: Volume, f: File, chain: seq<nat>)
  {
    && f.first > 0 && chain != [] && f.first == chain[0] && f.pos <= f.size <= |Contents(v, chain)| && Chain(v, chain)
  }

  /** A write of buf to the file f of this chain has the result r: the bytes laid out are in the file
      from the place where they start, nothing else of it changes, more was added to the chain, no
      other cluster or entry is touched, and less is written only when no entry is free. */
  ghost predicate WrittenTo(v: Volume, b: nat, f: File, chain: seq<nat>, buf: seq<byte>, r: WriteDone, more: seq<nat>)
    requires b > 0 && Index(f.pos, b) < |chain| && Start(b, f.pos, |buf|) >= 0
  {
    var start, laid := Start(b, f.pos, |buf|), Laid(v, b, chain[Index(f.pos, b)], f.pos, buf);
    match r
    case WriteFails => Spare(v)
    case WriteReturns(ret, f1, w) =>
      && f.pos <= f1.pos <= f.pos + |buf| && f1.first == f.first
      && WellFormed(w, b) && Framed(v, w, chain, more) && FileOf(w, Grown(f, f1), chain + more)
      && Replaced(Contents(w, chain + more), Contents(v, chain), start, laid, f1.pos - start, b, more != [])
      && (f1.pos == f.pos + |buf| ==> ret == |buf| && f1 == Grown(f, f1))
      && (f1.pos < f.pos + |buf| ==> ret == -ENOSPC && f1.size == f.size && FirstFree(w.table, 0) == |w.table|)
  }

  /** f1 with the size a file has that was f and is written up to f1's position. */
  function Grown(f: File, f1: File): (r: File)
  {
    f1.(size := if f1.pos > f.size then f1.pos else f.size)
  }

  /** FAT32_write at any position inside the chain, if the search for a free cluster reads the table. */
  lemma WriteExact(v: Volume, b: nat, f: File, chain: seq<nat>, buf: seq<byte>) returns (more: seq<nat>)
    requires b > 0 && f.pos < |Contents(v, chain)| && FileOf(v, f, chain) && WellFormed(v, b)
    ensures Index(f.pos, b) < |chain| && Start(b, f.pos, |buf|) >= 0
    ensures WrittenTo(v, b, f, chain, buf, Write(v, b, f, buf, ReadDma), more)
  {
    hide WellFormed, Contents, WriteLoop, Index, Offset, Follow, FirstFree, Framed, Fits;
    more := WriteAt(v, b, chain, f.pos, buf);
    var laid := Laid(v, b, chain[Index(f.pos, b)], f.pos, buf);
    var r := WriteLoop(v, b, Follow(v.table, f.first, Index(f.pos, b)), Offset(f.pos, b), buf, ReadDma);
    if r.WroteTo? {
      ReplacedLength(Contents(r.vol, chain + more), Contents(v, chain), Start(b, f.pos, |buf|), laid, |laid| - r.left, b, more != []);
    }
  }

  lemma ReplacedLength(all: seq<byte>, was: seq<byte>, pos: nat, buf: seq<byte>, n: nat, b: nat, grown: bool)
    requires Replaced(all, was, pos, buf, n, b, grown)
    ensures |was| <= |all| && pos + n <= |all| && all[pos..pos + n] == buf[..n]
  {
  }

  /** Seeking back to bytes that start a cluster or lie in one, and reading them. */
  lemma ReadBack(w: Volume, b: nat, f: File, chain: seq<nat>, pos: nat, buf: seq<byte>)
    requires b > 0 && Fits(b, pos, |buf|) && pos + |buf| < TWO_64 && pos + |buf| == f.pos <= |Contents(w, chain)|
    requires Contents(w, chain)[pos..f.pos] == buf && FileOf(w, f, chain) && WellFormed(w, b)
    ensures Seek(f, pos).0 == pos && Read(w, b, Seek(f, pos).1, |buf|) == ReadReturns(|buf|, f, buf)
  {
    hide WellFormed, Contents, Index, Offset, Read, Chain;
    Limits(w, b);
    ReadExact(w, b, f.(pos := pos), chain, |buf|);
  }

  lemma InChain(v: Volume, b: nat, f: File, chain: seq<nat>)
    requires b > 0 && f.pos < |Contents(v, chain)| && FileOf(v, f, chain) && WellFormed(v, b)
    ensures Index(f.pos, b) < |chain|
  {
    hide Index, Contents, Chain;
    Position(v, b, chain, f.pos);
  }

  // ----- many files -----

  /** The chains of different files have no cluster in common. */
  ghost predicate Library(v: Volume, files: map<nat, seq<nat>>)
  {
    && (forall n | n in files :: Chain(v, files[n]))
    && (forall m, n | m in files && n in files && m != n :: Apart(files[m], files[n]))
  }

  ghost predicate Apart(x: seq<nat>, y: seq<nat>)
  {
    forall c | c in x :: c !in y
  }

  /** Writing to one file keeps every other file's chain and contents, and all chains apart. */
  lemma WriteKeepsLibrary(v: Volume, w: Volume, files: map<nat, seq<nat>>, n: nat, more: seq<nat>)
    requires Library(v, files) && n in files && Framed(v, w, files[n], more) && Chain(w, files[n] + more)
    ensures Library(w, files[n := files[n] + more])
    ensures forall m | m in files && m != n :: Contents(w, files[m]) == Contents(v, files[m])
  {
    forall m | m in files && m != n
      ensures Chain(w, files[m]) && Contents(w, files[m]) == Contents(v, files[m])
      ensures Apart(files[m], files[n] + more) && Apart(files[n] + more, files[m])
    {
      assert Apart(files[m], files[n]) && Chain(v, files[m]);
      hide Chain, Contents, Framed;
      OthersUntouched(v, w, files[n], more, files[m]);
    }
  }

  // ----- where it is wrong -----

  /** A write that starts inside a cluster and leaves it is, whatever the search does, the write of the
      laid bytes at the cluster's start: its first bytes are misplaced, and the cluster's last bytes,
      which it should have written, keep their old values. */
  lemma WriteMisplaced(v: Volume, b: nat, f: File, chain: seq<nat>, buf: seq<byte>, cmd: Command)
    requires b > 0 && !Fits(b, f.pos, |buf|)
    requires f.pos < |Contents(v, chain)| && FileOf(v, f, chain) && WellFormed(v, b)
    ensures Index(f.pos, b) < |chain| && Start(b, f.pos, |buf|) >= 0
    ensures var k, c := b - Offset(f.pos, b), chain[Index(f.pos, b)];
      && Inside(v, c) && |v.clusters[c - 2]| == b
      && Laid(v, b, c, f.pos, buf)[..b] == buf[..k] + v.clusters[c - 2][k..] && Laid(v, b, c, f.pos, buf)[b..] == buf[k..]
    ensures var r := Write(v, b, f, buf, cmd);
      var t := Write(v, b, f.(pos := Start(b, f.pos, |buf|)), Laid(v, b, chain[Index(f.pos, b)], f.pos, buf), cmd);
      && (r.WriteFails? <==> t.WriteFails?)
      && (r.WriteReturns? ==> r.vol == t.vol && r.file == t.file && (r.ret == |buf| || r.ret == t.ret == -ENOSPC))
  {
    hide Contents, Index, Chain, WellFormed, WriteLoop, Follow, Offset;
    var x, tail := PositionParts(v, b, chain, f.pos);
    NotEmpty(v, b, tail);
    Crossing(v, b, tail[0], Offset(f.pos, b), buf, cmd);
    SameCluster(f.pos, b);
    assert Laid(v, b, tail[0], f.pos, buf)[..b] == buf[..b - Offset(f.pos, b)] + v.clusters[tail[0] - 2][b - Offset(f.pos, b)..];
  }

  /** The start of a position's cluster. */
  lemma SameCluster(pos: nat, b: nat)
    requires b > 0
    ensures Offset(pos, b) <= pos && Index(pos - Offset(pos, b), b) == Index(pos, b) && Offset(pos - Offset(pos, b), b) == 0
  {
    var q := pos / b;
    assert pos == q * b + pos % b;
    Exact(q, b);
    var p := q * b;
    assert p == (p / b) * b + p % b;
  }

  /** At a position just behind the last cluster the walk ends on the end mark, and the write goes to
      a cluster that does not exist. */
  lemma WriteBehindFails(v: Volume, b: nat, f: File, chain: seq<nat>, buf: seq<byte>, cmd: Command)
    requires b > 0 && buf != [] && f.pos == |Contents(v, chain)| && FileOf(v, f, chain) && WellFormed(v, b)
    ensures Write(v, b, f, buf, cmd) == WriteFails
  {
    Position(v, b, chain, f.pos);
    hide Contents, Index, Offset;
    EndIndex(v, b, chain, f.pos);
  }

  lemma EndIndex(v: Volume, b: nat, chain: seq<nat>, pos: nat)
    requires b > 0 && pos == |Contents(v, chain)| && Chain(v, chain) && WellFormed(v, b)
    ensures Index(pos, b) == |chain|
  {
    ContentsLength(v, b, chain);
    hide Contents, Chain, WellFormed;
    Exact(|chain|, b);
  }

  lemma Exact(n: nat, b: nat)
    requires b > 0
    ensures Index(Bytes(n, b), b) == n
  {
    var q := n * b / b;
    assert n * b == q * b + n * b % b;
    NextMultiple(q, n, b);
    NextMultiple(n, q, b);
  }

  lemma NextMultiple(q: nat, n: nat, b: nat)
    requires b > 0
    ensures q < n ==> q * b + b <= n * b
  {
    if q < n { assert (q + 1) * b <= n * b; }
  }

  /** The first write to a file without clusters stores nothing and answers EFAULT. With a search that
      works a cluster is taken for the file all the same; as coded, none is, and of the first 128
      entries of the table entry 0 becomes an end mark and the others become zero. */
  lemma FirstWriteFails(v: Volume, b: nat, f: File, buf: seq<byte>, cmd: Command)
    requires f.first == 0 && WellFormed(v, b)
    ensures var r := Write(v, b, f, buf, cmd); var x := FirstFree(v.table, 0);
      && r.WriteReturns? && r.ret == EFAULT && r.vol.clusters == v.clusters && |r.vol.table| == |v.table|
      && (cmd == ReadDma && Inside(v, x) ==>
            r.file == f.(first := x) && Chain(r.vol, [x]) && v.table[x] == 0 && r.vol.table == v.table[x := END])
      && (cmd == CODED ==> r.file == f)
      && (cmd == CODED ==> forall i | 0 <= i < |v.table| ::
            r.vol.table[i] == if i == 0 then END else if i < 128 then 0 else v.table[i])
  {
    FirstFreeIs(v.table, 0);
  }

  // ----- the command in the code -----

  /** As long as the chain is long enough the search is not used. */
  lemma {:induction false} CommandIrrelevant(v: Volume, b: nat, own: seq<nat>, buf: seq<byte>)
    requires |buf| <= |Contents(v, own)| && Chain(v, own) && WellFormed(v, b)
    ensures WriteLoop(v, b, own[0], 0, buf, CODED) == WriteLoop(v, b, own[0], 0, buf, ReadDma)
    decreases |buf|
  {
    NotEmpty(v, b, own);
    if |buf| > b {
      assert |own| > 1 by { OneOnly(v, b, own); }
      StepOn(v, b, own, buf, CODED);
      StepOn(v, b, own, buf, ReadDma);
      hide WriteLoop;
      FirstOfMany(v, own);
      CommandIrrelevant(WithFirst(v, own[0], buf, b), b, own[1..], buf[b..]);
    }
  }

  lemma FirstOfMany(v: Volume, own: seq<nat>)
    requires own != [] && Inside(v, own[0])
    ensures |Contents(v, own)| == |v.clusters[own[0] - 2]| + |Contents(v, own[1..])|
  {
  }

  lemma OneOnly(v: Volume, b: nat, own: seq<nat>)
    requires Chain(v, own) && WellFormed(v, b)
    ensures |Contents(v, own)| > b ==> |own| > 1
  {
    NotEmpty(v, b, own);
    if |own| == 1 {
      ContentsFirst(v, own[0], []);
      assert own == [own[0]] + [];
    }
  }

  /** When the chain is too short, the search writes zeros over the first sector of the table and
      finds nothing. */
  lemma {:induction false} CodedWipes(v: Volume, b: nat, own: seq<nat>, buf: seq<byte>)
    requires |buf| > |Contents(v, own)| && Chain(v, own) && WellFormed(v, b)
    ensures var r := WriteLoop(v, b, own[0], 0, buf, CODED);
      && r.WroteTo? && r.left == |buf| - |Contents(v, own)| && |r.vol.table| == |v.table|
      && forall i | 0 <= i < |v.table| :: r.vol.table[i] == if i < 128 then 0 else v.table[i]
    decreases |buf|
  {
    NotEmpty(v, b, own);
    FirstOfMany(v, own);
    if |own| > 1 {
      StepOn(v, b, own, buf, CODED);
      hide WriteLoop;
      CodedWipes(WithFirst(v, own[0], buf, b), b, own[1..], buf[b..]);
    } else {
      LastOrNot(v, own);
    }
  }

  /** A write that stays in its cluster needs no search. */
  lemma CodedInside(v: Volume, b: nat, own: seq<nat>, offset: nat, buf: seq<byte>)
    requires buf != [] && offset + |buf| <= b && Chain(v, own) && WellFormed(v, b)
    ensures offset + |buf| <= |Contents(v, own)|
    ensures var r := WriteLoop(v, b, own[0], offset, buf, CODED);
      r == WriteLoop(v, b, own[0], offset, buf, ReadDma) && r.WroteTo? && r.left == 0
  {
    FirstOfMany(v, own);
  }

  /** The loop from inside a cluster, by way of the write it amounts to. */
  lemma CodedFrom(v: Volume, b: nat, own: seq<nat>, offset: nat, buf: seq<byte>)
    requires offset < b && buf != [] && Chain(v, own) && WellFormed(v, b)
    ensures var r := WriteLoop(v, b, own[0], offset, buf, CODED);
      && r.WroteTo?
      && (offset + |buf| <= |Contents(v, own)| ==> r == WriteLoop(v, b, own[0], offset, buf, ReadDma) && r.left == 0)
      && (offset + |buf| > |Contents(v, own)| ==>
            && r.left == offset + |buf| - |Contents(v, own)| && |r.vol.table| == |v.table|
            && forall i | 0 <= i < |v.table| :: r.vol.table[i] == if i < 128 then 0 else v.table[i])
  {
    hide WriteLoop, Contents, Chain, WellFormed, Inside;
    NotEmpty(v, b, own);
    var x := Head(v, b, own);
    if 0 < offset && |buf| <= b - offset {
      CodedInside(v, b, own, offset, buf);
    } else {
      var laid := if offset == 0 then buf else buf[..b - offset] + x[b - offset..] + buf[b - offset..];
      if offset > 0 {
        Crossing(v, b, own[0], offset, buf, CODED);
        Crossing(v, b, own[0], offset, buf, ReadDma);
      }
      if |laid| <= |Contents(v, own)| {
        CommandIrrelevant(v, b, own, laid);
        Enough(v, b, own, laid);
      } else {
        CodedWipes(v, b, own, laid);
      }
    }
  }

  /** FAT32_write as it is, at every position of the file: inside the chain it succeeds exactly when
      the chain is long enough, and then it is the same as with the right command; otherwise the file
      allocation table loses its first 128 entries. Right behind the chain it leaves the volume. */
  lemma CodedWriteIff(v: Volume, b: nat, f: File, chain: seq<nat>, buf: seq<byte>)
    requires b > 0 && buf != [] && FileOf(v, f, chain) && WellFormed(v, b)
    ensures var r := Write(v, b, f, buf, CODED);
      && (r.WriteFails? <==> f.pos == |Contents(v, chain)|)
      && (r.WriteReturns? ==> (r.ret == |buf| <==> f.pos + |buf| <= |Contents(v, chain)|))
      && (r.WriteReturns? && r.ret == |buf| ==> r == Write(v, b, f, buf, ReadDma))
      && (r.WriteReturns? && r.ret != |buf| ==>
            r.ret == -ENOSPC && |r.vol.table| == |v.table|
            && forall i | 0 <= i < |v.table| :: r.vol.table[i] == if i < 128 then 0 else v.table[i])
  {
    hide Contents, Index, Offset, Chain, WellFormed, WriteLoop, Follow;
    if f.pos == |Contents(v, chain)| {
      WriteBehindFails(v, b, f, chain, buf, CODED);
    } else {
      var x, tail := PositionParts(v, b, chain, f.pos);
      CodedFrom(v, b, tail, Offset(f.pos, b), buf);
    }
  }

  // ----- when the bytes are where they should be -----

  /** The volume with other contents in cluster c. */
  function Holding(v: Volume, c: nat, y: seq<byte>): (r: Volume)
    requires Inside(v, c)
  {
    v.(clusters := v.clusters[c - 2 := y])
  }

  /** After the write, buf lies in the file at its position. */
  ghost predicate Stores(v: Volume, b: nat, f: File, chain: seq<nat>, buf: seq<byte>, cmd: Command)
    requires b > 0
  {
    var r := Write(v, b, f, buf, cmd);
    && r.WriteReturns? && r.ret == |buf| && f.pos + |buf| <= |Contents(r.vol, chain)|
    && Contents(r.vol, chain)[f.pos..f.pos + |buf|] == buf
  }

  lemma HoldingKeeps(v: Volume, b: nat, f: File, chain: seq<nat>, i: nat, y: seq<byte>)
    requires i < |chain| && |y| == b && FileOf(v, f, chain) && WellFormed(v, b)
    ensures Inside(v, chain[i])
    ensures var w := Holding(v, chain[i], y);
      WellFormed(w, b) && FileOf(w, f, chain) && |Contents(w, chain)| == |Contents(v, chain)|
      && Inside(w, chain[i]) && w.clusters[chain[i] - 2] == y
  {
    assert Inside(v, chain[i]);
    var w := Holding(v, chain[i], y);
    ClusterWritten(v, b, chain[i], y);
    hide Contents;
    ContentsLength(v, b, chain);
    assert forall j | 0 <= j < |chain| :: Inside(w, chain[j]);
    ContentsLength(w, b, chain);
  }

  /** The laid bytes are in the chain from the start on. */
  lemma StoredAs(v: Volume, b: nat, f: File, chain: seq<nat>, buf: seq<byte>, cmd: Command)
    requires b > 0 && buf != [] && f.pos + |buf| <= |Contents(v, chain)| && FileOf(v, f, chain) && WellFormed(v, b)
    ensures Index(f.pos, b) < |chain| && Start(b, f.pos, |buf|) >= 0
    ensures var r := Write(v, b, f, buf, cmd); var start, laid := Start(b, f.pos, |buf|), Laid(v, b, chain[Index(f.pos, b)], f.pos, buf);
      && r.WriteReturns? && r.ret == |buf| && start + |laid| == f.pos + |buf| <= |Contents(r.vol, chain)|
      && Contents(r.vol, chain)[start..start + |laid|] == laid
  {
    hide Contents, Index, Offset, Chain, WellFormed, Write, Laid, Fits, FirstFree, Framed;
    CodedWriteIff(v, b, f, chain, buf);
    var more := WriteExact(v, b, f, chain, buf);
    var r := Write(v, b, f, buf, ReadDma);
    var start, laid := Start(b, f.pos, |buf|), Laid(v, b, chain[Index(f.pos, b)], f.pos, buf);
    ReplacedLength(Contents(r.vol, chain + more), Contents(v, chain), start, laid, r.file.pos - start, b, more != []);
    hide Replaced;
    SameLength(v, r.vol, b, chain, more);
    ContentsSplit(r.vol, chain, more);
    assert laid[..|laid|] == laid;
  }

  lemma SameLength(v: Volume, w: Volume, b: nat, chain: seq<nat>, more: seq<nat>)
    requires Chain(v, chain) && Chain(w, chain + more) && WellFormed(v, b) && WellFormed(w, b)
    ensures |Contents(w, chain)| == |Contents(v, chain)|
  {
    assert forall i | 0 <= i < |chain| :: (chain + more)[i] == chain[i];
    hide Contents;
    ContentsLength(v, b, chain);
    ContentsLength(w, b, chain);
  }

  lemma LaidFits(v: Volume, b: nat, c: nat, pos: nat, buf: seq<byte>)
    requires b > 0 && Fits(b, pos, |buf|)
    ensures Start(b, pos, |buf|) == pos && Laid(v, b, c, pos, buf) == buf
  {
  }

  lemma StoresFitting(v: Volume, b: nat, f: File, chain: seq<nat>, buf: seq<byte>, cmd: Command)
    requires b > 0 && buf != [] && Fits(b, f.pos, |buf|)
    requires f.pos + |buf| <= |Contents(v, chain)| && FileOf(v, f, chain) && WellFormed(v, b)
    ensures Stores(v, b, f, chain, buf, cmd)
  {
    hide Contents, Index, WellFormed, Write, FileOf, Laid, Start, Fits;
    StoredAs(v, b, f, chain, buf, cmd);
    LaidFits(v, b, chain[Index(f.pos, b)], f.pos, buf);
  }

  lemma MissesCrossing(v: Volume, b: nat, f: File, chain: seq<nat>, buf: seq<byte>, cmd: Command, c: nat)
    requires b > 0 && buf != [] && !Fits(b, f.pos, |buf|) && Index(f.pos, b) < |chain| && c == chain[Index(f.pos, b)]
    requires Inside(v, c) && |v.clusters[c - 2]| == b && v.clusters[c - 2][b - 1] != buf[b - Offset(f.pos, b) - 1]
    requires f.pos + |buf| <= |Contents(v, chain)| && FileOf(v, f, chain) && WellFormed(v, b)
    ensures !Stores(v, b, f, chain, buf, cmd)
  {
    hide Contents, Index, WellFormed, Write, FileOf, Offset;
    StoredAs(v, b, f, chain, buf, cmd);
    MissedByte(Contents(Write(v, b, f, buf, cmd).vol, chain), Laid(v, b, c, f.pos, buf), f.pos, buf, b,
               b - Offset(f.pos, b), v.clusters[c - 2]);
  }

  /** Whatever the first cluster of the write held before, the bytes are stored at their position
      exactly if the write starts a cluster or stays in one; for either command, as long as the chain
      is long enough. */
  lemma StoresIff(v: Volume, b: nat, f: File, chain: seq<nat>, buf: seq<byte>, cmd: Command)
    requires b > 0 && buf != [] && f.pos + |buf| <= |Contents(v, chain)| && FileOf(v, f, chain) && WellFormed(v, b)
    ensures Index(f.pos, b) < |chain| && Inside(v, chain[Index(f.pos, b)])
    ensures (forall y: seq<byte> | |y| == b :: Stores(Holding(v, chain[Index(f.pos, b)], y), b, f, chain, buf, cmd))
      <==> Fits(b, f.pos, |buf|)
  {
    hide Contents, Index, Offset, WellFormed, Write, FileOf, Stores, Laid, Start;
    StoredAs(v, b, f, chain, buf, cmd);
    var i := Index(f.pos, b);
    var c := chain[i];
    HoldingKeeps(v, b, f, chain, i, seq(b, _ => 0));
    if Fits(b, f.pos, |buf|) {
      hide Fits, Holding;
      forall y: seq<byte> | |y| == b ensures Stores(Holding(v, c, y), b, f, chain, buf, cmd) {
        HoldingKeeps(v, b, f, chain, i, y);
        StoresFitting(Holding(v, c, y), b, f, chain, buf, cmd);
      }
    } else {
      var y: seq<byte> := seq(b, _ => if buf[b - Offset(f.pos, b) - 1] == 0 then 1 else 0);
      HoldingKeeps(v, b, f, chain, i, y);
      hide Fits, Holding;
      MissesCrossing(Holding(v, c, y), b, f, chain, buf, cmd, c);
    }
  }

  /** The last byte of the cluster is not the one that belongs there. */
  lemma MissedByte(all: seq<byte>, laid: seq<byte>, pos: nat, buf: seq<byte>, b: nat, k: nat, y: seq<byte>)
    requires 0 < k < b == |y| && k < |buf| && pos + k >= b && pos + |buf| <= |all|
    requires laid == buf[..k] + y[k..] + buf[k..] && all[pos + k - b..pos + |buf|] == laid && y[b - 1] != buf[k - 1]
    ensures all[pos..pos + |buf|] != buf
  {
    assert laid[b - 1] == y[b - 1] == all[pos + k - 1];
    assert all[pos..pos + |buf|][k - 1] == all[pos + k - 1];
  }

  lemma {:induction false} Enough(v: Volume, b: nat, own: seq<nat>, buf: seq<byte>)
    requires |buf| <= |Contents(v, own)| && Chain(v, own) && WellFormed(v, b)
    ensures var r := WriteLoop(v, b, own[0], 0, buf, CODED); r.WroteTo? && r.left == 0
    decreases |buf|
  {
    NotEmpty(v, b, own);
    if |buf| > b {
      assert |own| > 1 by { OneOnly(v, b, own); }
      StepOn(v, b, own, buf, CODED);
      hide WriteLoop;
      FirstOfMany(v, own);
      Enough(WithFirst(v, own[0], buf, b), b, own[1..], buf[b..]);
    }
  }

  // ----- the round trip -----

  /** What is written from a cluster's start, or inside one cluster, is what is read after seeking back,
      for every length: with a search that reads the chain is extended where it is needed, and the
      write falls short only if no entry is free; with the search as coded exactly if the chain is too
      short. */
  lemma RoundTrip(v: Volume, b: nat, f: File, chain: seq<nat>, buf: seq<byte>, cmd: Command)
    requires 0 < b <= MAX_CLUSTER && Fits(b, f.pos, |buf|) && f.pos + |buf| < TWO_64
    requires f.pos < |Contents(v, chain)| && FileOf(v, f, chain) && WellFormed(v, b)
    ensures var r := Write(v, b, f, buf, cmd);
      && (r.WriteFails? ==> cmd == ReadDma && Spare(v))
      && (r.WriteReturns? ==> r.ret == |buf| || r.ret == -ENOSPC)
      && (r.WriteReturns? && r.ret != |buf| ==>
            if cmd == CODED then f.pos + |buf| > |Contents(v, chain)| else FirstFree(r.vol.table, 0) == |r.vol.table|)
      && (r.WriteReturns? && cmd == CODED && f.pos + |buf| > |Contents(v, chain)| ==> r.ret != |buf|)
      && (r.WriteReturns? && r.ret == |buf| ==>
            Read(r.vol, b, Seek(r.file, f.pos).1, |buf|) == ReadReturns(|buf|, r.file, buf))
  {
    hide WellFormed, Contents, Write, Index, Offset, Read, Chain, FirstFree, Framed, FileOf, Spare, Replaced, Fits;
    ReadsBackWritten(v, b, f, chain, buf);
    if cmd == CODED {
      if buf == [] { NothingWritten(v, b, f); } else { CodedWriteIff(v, b, f, chain, buf); }
    }
  }

  lemma NothingWritten(v: Volume, b: nat, f: File)
    requires b > 0 && f.first > 0
    ensures Write(v, b, f, [], CODED) == Write(v, b, f, [], ReadDma) && Write(v, b, f, [], CODED).WriteReturns?
    ensures Write(v, b, f, [], CODED).ret == 0
  {
  }

  lemma ReadsBackWritten(v: Volume, b: nat, f: File, chain: seq<nat>, buf: seq<byte>)
    requires 0 < b <= MAX_CLUSTER && Fits(b, f.pos, |buf|) && f.pos + |buf| < TWO_64
    requires f.pos < |Contents(v, chain)| && FileOf(v, f, chain) && WellFormed(v, b)
    ensures f.first > 0
    ensures var r := Write(v, b, f, buf, ReadDma);
      && (r.WriteFails? ==> Spare(v))
      && (r.WriteReturns? ==> r.ret == |buf| || (r.ret == -ENOSPC && FirstFree(r.vol.table, 0) == |r.vol.table|))
      && (r.WriteReturns? && r.ret == |buf| ==>
            Read(r.vol, b, Seek(r.file, f.pos).1, |buf|) == ReadReturns(|buf|, r.file, buf))
  {
    assert f.first > 0;
    hide WellFormed, Contents, Write, Index, Offset, Read, FirstFree, FileOf, Spare, WrittenTo;
    var r := Write(v, b, f, buf, ReadDma);
    var more := WriteExact(v, b, f, chain, buf);
    FittingWritten(v, b, f, chain, buf, r, more);
    if r.WriteReturns? && r.ret == |buf| { ReadBack(r.vol, b, r.file, chain + more, f.pos, buf); }
  }

  lemma FittingWritten(v: Volume, b: nat, f: File, chain: seq<nat>, buf: seq<byte>, r: WriteDone, more: seq<nat>)
    requires b > 0 && Index(f.pos, b) < |chain| && Start(b, f.pos, |buf|) >= 0 && Fits(b, f.pos, |buf|)
    requires WrittenTo(v, b, f, chain, buf, r, more)
    ensures r.WriteFails? ==> Spare(v)
    ensures r.WriteReturns? ==> r.ret == |buf| || (r.ret == -ENOSPC && FirstFree(r.vol.table, 0) == |r.vol.table|)
    ensures r.WriteReturns? && r.ret == |buf| ==>
      && WellFormed(r.vol, b) && FileOf(r.vol, r.file, chain + more)
      && r.file.pos == f.pos + |buf| <= |Contents(r.vol, chain + more)|
      && Contents(r.vol, chain + more)[f.pos..r.file.pos] == buf
  {
    hide WellFormed, Contents, Index, Offset, FirstFree, FileOf, Spare, Framed, Laid, Start, Fits, Replaced;
    LaidFits(v, b, chain[Index(f.pos, b)], f.pos, buf);
    if r.WriteReturns? {
      ReplacedLength(Contents(r.vol, chain + more), Contents(v, chain), f.pos, buf, r.file.pos - f.pos, b, more != []);
      assert buf[..|buf|] == buf;
    }
  }

  /** A write that returns its count, and whose bytes are read after seeking back. */
  ghost predicate ReadsBack(v: Volume, b: nat, f: File, buf: seq<byte>, cmd: Command)
    requires 0 < b <= MAX_CLUSTER
  {
    var r := Write(v, b, f, buf, cmd);
    && r.WriteReturns? && r.ret == |buf|
    && Read(r.vol, b, Seek(r.file, f.pos).1, |buf|) == ReadReturns(|buf|, r.file, buf)
  }

  /** Otherwise the reading loop forgets the offset as the writing loop did, and delivers the cluster
      from its start: the bytes it kept from before among them, or, for less than a cluster, nothing. */
  lemma ReadsOther(v: Volume, b: nat, f: File, chain: seq<nat>, buf: seq<byte>, cmd: Command, c: nat)
    requires 0 < b <= MAX_CLUSTER && buf != [] && !Fits(b, f.pos, |buf|) && Index(f.pos, b) < |chain| && c == chain[Index(f.pos, b)]
    requires Inside(v, c) && |v.clusters[c - 2]| == b && (|buf| >= b ==> v.clusters[c - 2][b - 1] != buf[b - 1])
    requires f.pos + |buf| < TWO_64 && f.pos + |buf| <= |Contents(v, chain)| && FileOf(v, f, chain) && WellFormed(v, b)
    ensures !ReadsBack(v, b, f, buf, cmd)
  {
    hide Contents, Index, WellFormed, Write, Read, FileOf, Offset, WrittenTo, Laid, Start;
    CodedWriteIff(v, b, f, chain, buf);
    var more := WriteExact(v, b, f, chain, buf);
    var r := Write(v, b, f, buf, ReadDma);
    WrittenWhole(v, b, f, chain, buf, r, more);
    ReadExact(r.vol, b, r.file.(pos := f.pos), chain + more, |buf|);
    SameCluster(f.pos, b);
    if |buf| >= b { KeptByte(v, b, c, f.pos, buf, Contents(r.vol, chain + more)); }
  }

  /** A write of the whole buffer, in terms of what a read starts from. */
  lemma WrittenWhole(v: Volume, b: nat, f: File, chain: seq<nat>, buf: seq<byte>, r: WriteDone, more: seq<nat>)
    requires b > 0 && buf != [] && Index(f.pos, b) < |chain| && Start(b, f.pos, |buf|) >= 0
    requires r.WriteReturns? && r.ret == |buf| && WrittenTo(v, b, f, chain, buf, r, more) && f.pos + |buf| < TWO_64
    ensures WellFormed(r.vol, b) && Chain(r.vol, chain + more) && chain + more != []
    ensures 0 < r.file.first == (chain + more)[0] && r.file.size <= |Contents(r.vol, chain + more)|
    ensures f.pos + |buf| == r.file.pos <= r.file.size && Seek(r.file, f.pos) == (f.pos, r.file.(pos := f.pos))
    ensures var start, laid := Start(b, f.pos, |buf|), Laid(v, b, chain[Index(f.pos, b)], f.pos, buf);
      start + |laid| == r.file.pos <= |Contents(r.vol, chain + more)| && Contents(r.vol, chain + more)[start..r.file.pos] == laid
  {
    hide Contents, Index, Offset, WellFormed, Laid, Start, Fits, FirstFree, Framed, Spare, Chain, Replaced;
    var start, laid := Start(b, f.pos, |buf|), Laid(v, b, chain[Index(f.pos, b)], f.pos, buf);
    ReplacedLength(Contents(r.vol, chain + more), Contents(v, chain), start, laid, r.file.pos - start, b, more != []);
    assert laid[..|laid|] == laid;
  }

  lemma KeptByte(v: Volume, b: nat, c: nat, pos: nat, buf: seq<byte>, all: seq<byte>)
    requires b > 0 && !Fits(b, pos, |buf|) && |buf| >= b && Inside(v, c) && |v.clusters[c - 2]| == b
    requires v.clusters[c - 2][b - 1] != buf[b - 1] && pos >= Offset(pos, b) && pos + |buf| <= |all|
    requires all[Start(b, pos, |buf|)..pos + |buf|] == Laid(v, b, c, pos, buf)
    ensures all[pos - Offset(pos, b)..pos - Offset(pos, b) + |buf|] != buf
  {
    var start, k := pos - Offset(pos, b), b - Offset(pos, b);
    hide Offset;
    var laid := Laid(v, b, c, pos, buf);
    assert laid[b - 1] == v.clusters[c - 2][b - 1];
    assert all[start..pos + |buf|][b - 1] == all[start + b - 1] == all[start..start + |buf|][b - 1];
  }

  /** Whatever the first cluster of the write held before, the bytes are read back exactly if the write
      starts a cluster or stays in one. */
  lemma ReadsBackIff(v: Volume, b: nat, f: File, chain: seq<nat>, buf: seq<byte>, cmd: Command)
    requires 0 < b <= MAX_CLUSTER && buf != [] && f.pos + |buf| < TWO_64
    requires f.pos + |buf| <= |Contents(v, chain)| && FileOf(v, f, chain) && WellFormed(v, b)
    ensures Index(f.pos, b) < |chain| && Inside(v, chain[Index(f.pos, b)])
    ensures (forall y: seq<byte> | |y| == b :: ReadsBack(Holding(v, chain[Index(f.pos, b)], y), b, f, buf, cmd))
      <==> Fits(b, f.pos, |buf|)
  {
    hide Contents, Index, Offset, WellFormed, Write, Read, FileOf;
    InChain(v, b, f, chain);
    var i := Index(f.pos, b);
    var c := chain[i];
    HoldingKeeps(v, b, f, chain, i, seq(b, _ => 0));
    if Fits(b, f.pos, |buf|) {
      hide Fits, Holding;
      forall y: seq<byte> | |y| == b ensures ReadsBack(Holding(v, c, y), b, f, buf, cmd) {
        HoldingKeeps(v, b, f, chain, i, y);
        RoundTrip(Holding(v, c, y), b, f, chain, buf, cmd);
        StoredAs(Holding(v, c, y), b, f, chain, buf, cmd);
      }
    } else {
      var y: seq<byte> := seq(b, _ => if |buf| >= b && buf[b - 1] == 0 then 1 else 0);
      HoldingKeeps(v, b, f, chain, i, y);
      hide Fits, Holding, ReadsBack;
      ReadsOther(Holding(v, c, y), b, f, chain, buf, cmd, c);
    }
  }
}
