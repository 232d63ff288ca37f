/** Reading and writing files through cluster chains (Kernel/fat32.c: FAT32_read, FAT32_write,
    FAT32_lseek, FAT32_find_available_cluster), over the entries of the file allocation table and
    the contents of the data clusters. */
module FatFiles {
  import opened Words
  import opened Sequences

  type byte = x: nat | x < 256

  /** The 28-bit entries, and the data of cluster 2, 3, ... */
  datatype Volume = Volume(table: seq<nat>, clusters: seq<seq<byte>>)

  /** The fields of an FS_entry that a file uses. */
  datatype File = File(first: nat, pos: nat, size: nat)

  const TWO_28: nat := 0x1000_0000

  /** A cluster is at most 255 sectors of at most 65535 bytes. */
  const MAX_CLUSTER: nat := 0x100_0000

  /** The mark the code writes at a chain's end, which is also the least it takes for one; the mark of
      a bad cluster, from which on it stops following a chain. */
  const END: nat := 0x0fff_fff8
  const BAD: nat := 0x0fff_fff7

  const EFAULT: int := 21
  const EIO: int := 29
  const ENOSPC: int := 52
  const EOVERFLOW: int := 65

  /** The command the free-cluster search gives to the disk. */
  datatype Command = ReadDma | WriteDma

  /** The one in the code. */
  const CODED: Command := WriteDma

  /** A position as the number of its cluster in the chain, and the place in it. */
  function Index(pos: nat, b: nat): (r: nat)
    requires b > 0
  {
    pos / b
  }

  function Offset(pos: nat, b: nat): (r: nat)
    requires b > 0
    ensures r < b
  {
    pos % b
  }

  function Bytes(n: nat, b: nat): (r: nat) { n * b }

  // ----- the operations -----

  /** c has a place in the data area. */
  predicate Inside(v: Volume, c: nat)
  {
    2 <= c < |v.clusters| + 2
  }

  /** Read_FAT; a cluster number beyond the table is no entry. */
  function Next(t: seq<nat>, c: nat): (r: nat)
  {
    if c < |t| then t[c] else END
  }

  /** WRITE_FAT keeps 28 bits of the value. */
  function SetNext(t: seq<nat>, c: nat, x: nat): (r: seq<nat>)
  {
    if c < |t| then t[c := x % TWO_28] else t
  }

  function FirstFree(t: seq<nat>, i: nat): (r: nat)
    decreases |t| - i
  {
    if i >= |t| || t[i] == 0 then i else FirstFree(t, i + 1)
  }

  /** FAT32_find_available_cluster. With the read command it answers the first free entry, or 0. With
      the write command its zeroed buffer goes to the first sector of the table, and the first entry
      of the buffer is free. */
  function FindAvailable(t: seq<nat>, cmd: Command): (r: (nat, seq<nat>))
  {
    match cmd
    case ReadDma => (if FirstFree(t, 0) < |t| then FirstFree(t, 0) else 0, t)
    case WriteDma => (0, seq(|t|, i requires 0 <= i < |t| => if i < 128 then 0 else t[i]))
  }

  /** The loop that follows the chain to the cluster of the position. */
  function Follow(t: seq<nat>, c: nat, n: nat): (r: nat)
    decreases n
  {
    if n == 0 then c else Follow(t, if c < BAD then Next(t, c) else c, n - 1)
  }

  /** A loop leaves the volume, or ends with some bytes left to do. */
  datatype ReadRes = ReadOutside | ReadTo(data: seq<byte>, left: nat)

  /** The loop of FAT32_read, for clusters of b bytes: `left` bytes from offset in cluster c, with the
      offset forgotten before the length is taken from it. */
  function ReadLoop(v: Volume, b: nat, c: nat, last: nat, left: nat, offset: nat): (r: ReadRes)
    requires offset < b <= TWO_64
    decreases if offset == 0 then 0 else 1, left
  {
    if left == 0 || last >= BAD then ReadTo([], left)
    else if !Inside(v, c) || |v.clusters[c - 2]| != b then ReadOutside
    else
      var long := left > b - offset;
      var offset1 := if long then 0 else offset;
      var length := if long then b - offset1 else left;
      var left1 := if length <= left then left - length else left - length + TWO_64;
      match ReadLoop(v, b, Next(v.table, c), c, left1, if long then 0 else offset)
      case ReadOutside => ReadOutside
      case ReadTo(data, rest) => ReadTo(v.clusters[c - 2][offset1..offset1 + length] + data, rest)
  }

  datatype ReadDone = ReadFails | ReadReturns(ret: int, file: File, data: seq<byte>)

  /** The count cut down to what the file holds. */
  function Cut(f: File, count: nat): (r: nat)
  {
    if (f.pos + count) % TWO_64 > f.size then (f.size - f.pos) % TWO_64 else count
  }

  /** FAT32_read; ReadFails if it asks the disk for a cluster outside the volume. */
  function Read(v: Volume, b: nat, f: File, count: nat): (r: ReadDone)
    requires 0 < b <= TWO_64
  {
    if f.first == 0 then ReadReturns(EFAULT, f, [])
    else
      var n := Cut(f, count);
      match ReadLoop(v, b, Follow(v.table, f.first, Index(f.pos, b)), 0, n, Offset(f.pos, b))
      case ReadOutside => ReadFails
      case ReadTo(data, left) =>
        ReadReturns(if left == 0 then n else EIO, f.(pos := f.pos + |data|), data)
  }

  /** The loop of FAT32_write leaves the volume, or ends with some bytes left to do. */
  datatype WriteRes = WriteOutside | WroteTo(vol: Volume, left: nat)

  function Patch(x0: seq<byte>, at: nat, x: seq<byte>): (r: seq<byte>)
    requires at + |x| <= |x0|
    ensures |r| == |x0|
  {
    x0[..at] + x + x0[at + |x|..]
  }

  /** The loop of FAT32_write; the offset is forgotten before the bytes are copied. */
  function WriteLoop(v: Volume, b: nat, c: nat, offset: nat, buf: seq<byte>, cmd: Command): (r: WriteRes)
    requires offset < b
    ensures r.WroteTo? ==> r.left <= |buf|
    decreases |buf|
  {
    if buf == [] then WroteTo(v, 0)
    else if !Inside(v, c) || |v.clusters[c - 2]| != b then WriteOutside
    else
      var long := b - offset < |buf|;
      var length := if long then b - offset else |buf|;
      var offset1 := if long then 0 else offset;
      var v1 := v.(clusters := v.clusters[c - 2 := Patch(v.clusters[c - 2], offset1, buf[..length])]);
      if length == |buf| then WroteTo(v1, 0)
      else
        var next := Next(v1.table, c);
        if next < END then WriteLoop(v1, b, next, 0, buf[length..], cmd)
        else
          var (found, t) := FindAvailable(v1.table, cmd);
          if found == 0 then WroteTo(v1.(table := t), |buf| - length)
          else WriteLoop(v1.(table := SetNext(SetNext(t, c, found), found, END)), b, found, 0, buf[length..], cmd)
  }

  datatype WriteDone = WriteFails | WriteReturns(ret: int, file: File, vol: Volume)

  /** FAT32_write. The first write to a file without clusters gives it one, but then still fails. */
  function Write(v: Volume, b: nat, f: File, buf: seq<byte>, cmd: Command): (r: WriteDone)
    requires b > 0
  {
    if f.first == 0 then
      var (found, t) := FindAvailable(v.table, cmd);
      WriteReturns(EFAULT, f.(first := found), v.(table := SetNext(t, found, END)))
    else
      match WriteLoop(v, b, Follow(v.table, f.first, Index(f.pos, b)), Offset(f.pos, b), buf, cmd)
      case WriteOutside => WriteFails
      case WroteTo(v1, left) =>
        var pos := f.pos + |buf| - left;
        if left > 0 then WriteReturns(-ENOSPC, f.(pos := pos), v1)
        else WriteReturns(|buf|, f.(pos := pos, size := if pos > f.size then pos else f.size), v1)
  }

  /** FAT32_lseek with SEEK_SET. */
  function Seek(f: File, pos: nat): (r: (int, File))
  {
    if pos > f.size then (EOVERFLOW, f) else (pos, f.(pos := pos))
  }

  // ----- well-formed volumes and chains -----

  /** The table covers the data clusters, its first two entries are reserved marks, and cluster
      numbers stay below the marks. */
  ghost predicate WellFormed(v: Volume, b: nat)
  {
    && 0 < b <= MAX_CLUSTER && |v.clusters| + 2 <= BAD && |v.clusters| + 2 <= |v.table| <= TWO_28
    && v.table[0] != 0 && v.table[1] != 0
    && (forall i | 0 <= i < |v.table| :: v.table[i] < TWO_28)
    && (forall i | 0 <= i < |v.clusters| :: |v.clusters[i]| == b)
  }

  /** Each cluster of the chain leads to the next; the last entry is an end mark. */
  ghost predicate Chain(v: Volume, chain: seq<nat>)
  {
    && chain != []
    && (forall i | 0 <= i < |chain| :: Inside(v, chain[i]) && chain[i] < |v.table|)
    && (forall i | 0 <= i < |chain| - 1 :: v.table[chain[i]] == chain[i + 1])
    && v.table[chain[|chain| - 1]] >= END
  }

  /** What the clusters of a chain hold. */
  function Contents(v: Volume, chain: seq<nat>): (r: seq<byte>)
  {
    if chain == [] then []
    else (if Inside(v, chain[0]) then v.clusters[chain[0] - 2] else []) + Contents(v, chain[1..])
  }

  lemma TailChain(v: Volume, chain: seq<nat>)
    requires Chain(v, chain) && |chain| > 1
    ensures Chain(v, chain[1..])
  {
  }

  /** From a cluster the way to the end is the same, so a chain cannot come back to it. */
  lemma {:induction false} SameRest(v: Volume, x: seq<nat>, y: seq<nat>)
    requires |v.clusters| + 2 <= BAD
    requires Chain(v, x) && Chain(v, y) && x[0] == y[0]
    ensures x == y
    decreases |x|
  {
    LastOrNot(v, x);
    LastOrNot(v, y);
    if |x| > 1 {
      TailChain(v, x);
      TailChain(v, y);
      SameRest(v, x[1..], y[1..]);
      assert x == [x[0]] + x[1..] && y == [y[0]] + y[1..];
    }
  }

  /** An entry tells whether its cluster is the last one. */
  lemma LastOrNot(v: Volume, chain: seq<nat>)
    requires |v.clusters| + 2 <= BAD && Chain(v, chain)
    ensures if |chain| == 1 then v.table[chain[0]] >= END else v.table[chain[0]] == chain[1] < BAD
  {
  }

  lemma {:induction false} DropChain(v: Volume, chain: seq<nat>, k: nat)
    requires Chain(v, chain) && k < |chain|
    ensures Chain(v, chain[k..])
    decreases k
  {
  }

  /** Every chain that ends has no cluster twice. */
  lemma ChainDistinct(v: Volume, chain: seq<nat>)
    requires |v.clusters| + 2 <= BAD && Chain(v, chain)
    ensures forall i, j | 0 <= i < j < |chain| :: chain[i] != chain[j]
  {
    forall i, j | 0 <= i < j < |chain| ensures chain[i] != chain[j] {
      DropChain(v, chain, i);
      DropChain(v, chain, j);
      if chain[i] == chain[j] { SameRest(v, chain[i..], chain[j..]); }
    }
  }

  // ----- contents -----

  lemma {:induction false} ContentsLength(v: Volume, b: nat, chain: seq<nat>)
    requires WellFormed(v, b) && forall i | 0 <= i < |chain| :: Inside(v, chain[i])
    ensures |Contents(v, chain)| == Bytes(|chain|, b)
    decreases |chain|
  {
    if chain != [] {
      ContentsLength(v, b, chain[1..]);
      assert |chain| * b == b + (|chain| - 1) * b;
    }
  }

  lemma {:induction false} ContentsSplit(v: Volume, x: seq<nat>, y: seq<nat>)
    ensures Contents(v, x + y) == Contents(v, x) + Contents(v, y)
    decreases |x|
  {
    if x == [] {
      assert x + y == y;
    } else {
      ContentsSplit(v, x[1..], y);
      var head := if Inside(v, x[0]) then v.clusters[x[0] - 2] else [];
      assert (x + y)[1..] == x[1..] + y;
      assert Contents(v, x + y) == head + Contents(v, x[1..] + y);
      Associative(head, Contents(v, x[1..]), Contents(v, y));
    }
  }

  lemma Associative<T>(x: seq<T>, y: seq<T>, z: seq<T>)
    ensures x + (y + z) == x + y + z
  {
  }

  /** Contents depend on the chain's own clusters only. */
  lemma {:induction false} ContentsSame(v: Volume, w: Volume, chain: seq<nat>)
    requires |v.clusters| == |w.clusters|
    requires forall i | 0 <= i < |chain| :: Inside(v, chain[i]) && v.clusters[chain[i] - 2] == w.clusters[chain[i] - 2]
    ensures Contents(v, chain) == Contents(w, chain)
    decreases |chain|
  {
    if chain != [] {
      assert forall i | 0 <= i < |chain[1..]| :: chain[1..][i] == chain[i + 1];
      ContentsSame(v, w, chain[1..]);
    }
  }

  /** Following a chain for n links. */
  lemma {:induction false} FollowChain(v: Volume, chain: seq<nat>, n: nat)
    requires |v.clusters| + 2 <= BAD && Chain(v, chain)
    ensures n < |chain| ==> Follow(v.table, chain[0], n) == chain[n]
    ensures n >= |chain| ==> Follow(v.table, chain[0], n) >= END
    decreases n
  {
    LastOrNot(v, chain);
    if n > 0 {
      if |chain| > 1 {
        TailChain(v, chain);
        FollowChain(v, chain[1..], n - 1);
      } else {
        FollowEnd(v.table, v.table[chain[0]], n - 1);
      }
    }
  }

  lemma {:induction false} FollowEnd(t: seq<nat>, c: nat, n: nat)
    requires c >= END
    ensures Follow(t, c, n) == c
    decreases n
  {
    if n > 0 { FollowEnd(t, c, n - 1); }
  }

  // ----- reading -----

  /** The first cluster of a chain: what it holds, and where its entry leads. */
  lemma Head(v: Volume, b: nat, chain: seq<nat>) returns (x: seq<byte>)
    requires Chain(v, chain) && WellFormed(v, b)
    ensures chain != [] && Inside(v, chain[0]) && chain[0] < BAD && x == v.clusters[chain[0] - 2] && |x| == b
    ensures 0 < b <= MAX_CLUSTER
    ensures Contents(v, chain) == x + Contents(v, chain[1..])
    ensures if |chain| == 1 then Next(v.table, chain[0]) >= END && Contents(v, chain[1..]) == []
            else chain[1..] != [] && Chain(v, chain[1..]) && Next(v.table, chain[0]) == chain[1..][0]
  {
    LastOrNot(v, chain);
    x := v.clusters[chain[0] - 2];
    if |chain| > 1 { TailChain(v, chain); }
  }

  /** From the start of a cluster the loop delivers the chain's bytes in order. */
  lemma {:induction false} ReadsInOrder(v: Volume, b: nat, chain: seq<nat>, last: nat, left: nat)
    requires last < BAD && left <= |Contents(v, chain)| && Chain(v, chain) && WellFormed(v, b)
    ensures ReadLoop(v, b, chain[0], last, left, 0) == ReadTo(Contents(v, chain)[..left], 0)
    decreases left
  {
    hide Chain, WellFormed, Contents, Inside;
    if left > 0 {
      var x := Head(v, b, chain);
      var y := Contents(v, chain[1..]);
      if left > b {
        ReadsInOrder(v, b, chain[1..], chain[0], left - b);
        assert x[0..b] == x;
        assert (x + y)[..left] == x + y[..left - b];
      } else {
        assert (x + y)[..left] == x[..left];
        assert ReadLoop(v, b, Next(v.table, chain[0]), chain[0], 0, 0) == ReadTo([], 0);
      }
    }
  }

  /** Asked for more than the chain holds, the loop runs off its end. */
  lemma {:induction false} ReadsPastEnd(v: Volume, b: nat, chain: seq<nat>, last: nat, left: nat)
    requires Chain(v, chain) && last < BAD && left > |Contents(v, chain)| && WellFormed(v, b)
    ensures ReadLoop(v, b, chain[0], last, left, 0) == ReadOutside
    decreases left
  {
    LastOrNot(v, chain);
    assert Inside(v, chain[0]);
    if |chain| > 1 {
      TailChain(v, chain);
      ReadsPastEnd(v, b, chain[1..], chain[0], left - b);
    } else {
      assert ReadLoop(v, b, Next(v.table, chain[0]), chain[0], left - b, 0) == ReadOutside;
    }
  }

  lemma ContentsBound(v: Volume, b: nat, chain: seq<nat>)
    requires WellFormed(v, b) && Chain(v, chain)
    ensures |Contents(v, chain)| < TWO_64 - MAX_CLUSTER
  {
    hide Contents;
    Limits(v, b);
    ContentsLength(v, b, chain);
    ChainDistinct(v, chain);
    Pigeonhole(chain, |v.clusters| + 2);
    hide Chain, WellFormed;
    Product(|chain|, b);
  }

  lemma Limits(v: Volume, b: nat)
    requires WellFormed(v, b)
    ensures |v.clusters| + 2 <= BAD && 0 < b <= MAX_CLUSTER
  {
  }

  lemma Product(n: nat, b: nat)
    requires n <= BAD && b <= MAX_CLUSTER
    ensures n * b < TWO_64 - MAX_CLUSTER
  {
    LessTimes(n, BAD, b);
    assert BAD * b <= BAD * MAX_CLUSTER;
  }

  lemma LessTimes(m: nat, n: nat, b: nat)
    requires m <= n
    ensures m * b <= n * b
  {
  }

  /** A read that starts inside a cluster and stays there is right. */
  lemma ReadsWithin(v: Volume, b: nat, chain: seq<nat>, left: nat, offset: nat)
    requires Chain(v, chain) && 0 < left <= b - offset && WellFormed(v, b)
    ensures offset + left <= |Contents(v, chain)|
    ensures ReadLoop(v, b, chain[0], 0, left, offset) == ReadTo(Contents(v, chain)[offset..offset + left], 0)
  {
  }

  /** Beyond the cluster the bytes come from the cluster's start; or there is less than a cluster
      left to deliver, and the count of what is left wraps. */
  lemma ReadsBeyond(v: Volume, b: nat, chain: seq<nat>, left: nat, offset: nat)
    requires Chain(v, chain) && 0 < offset < b && b - offset < left && offset + left <= |Contents(v, chain)| && WellFormed(v, b)
    ensures ReadLoop(v, b, chain[0], 0, left, offset) == if b <= left then ReadTo(Contents(v, chain)[..left], 0) else ReadOutside
  {
    hide Chain, WellFormed, Contents, Inside;
    var x := Head(v, b, chain);
    var y := Contents(v, chain[1..]);
    if left >= b {
      ReadsInOrder(v, b, chain[1..], chain[0], left - b);
      assert x[0..b] == x;
      assert (x + y)[..left] == x + y[..left - b];
    } else {
      ContentsBound(v, b, chain[1..]);
      ReadsPastEnd(v, b, chain[1..], chain[0], left - b + TWO_64);
    }
  }

  /** The cluster of a position, and the contents from there on. */
  lemma Position(v: Volume, b: nat, chain: seq<nat>, pos: nat)
    requires pos <= |Contents(v, chain)| && Chain(v, chain) && WellFormed(v, b)
    ensures Index(pos, b) <= |chain| && (pos < |Contents(v, chain)| ==> Index(pos, b) < |chain|)
    ensures Index(pos, b) == |chain| ==> pos == |Contents(v, chain)| && Follow(v.table, chain[0], Index(pos, b)) >= END
    ensures Index(pos, b) < |chain| ==>
      && Chain(v, chain[Index(pos, b)..]) && Follow(v.table, chain[0], Index(pos, b)) == chain[Index(pos, b)]
      && Contents(v, chain) == Contents(v, chain[..Index(pos, b)]) + Contents(v, chain[Index(pos, b)..])
      && |Contents(v, chain[..Index(pos, b)])| == pos - Offset(pos, b)
  {
    ContentsLength(v, b, chain);
    Quotient(pos, |chain|, b);
    hide Index, Offset, Bytes, Contents, Chain, WellFormed;
    FollowChain(v, chain, Index(pos, b));
    if Index(pos, b) < |chain| { SplitAt(v, b, chain, Index(pos, b)); }
  }

  lemma SplitAt(v: Volume, b: nat, chain: seq<nat>, k: nat)
    requires k < |chain| && Chain(v, chain) && WellFormed(v, b)
    ensures Chain(v, chain[k..]) && |Contents(v, chain[..k])| == Bytes(k, b)
    ensures Contents(v, chain) == Contents(v, chain[..k]) + Contents(v, chain[k..])
  {
    DropChain(v, chain, k);
    ContentsSplit(v, chain[..k], chain[k..]);
    assert chain[..k] + chain[k..] == chain;
    ContentsLength(v, b, chain[..k]);
  }

  lemma Quotient(pos: nat, n: nat, b: nat)
    requires b > 0 && pos <= Bytes(n, b)
    ensures Index(pos, b) <= n && (pos < Bytes(n, b) ==> Index(pos, b) < n) && (Index(pos, b) == n ==> pos == Bytes(n, b))
    ensures pos - Offset(pos, b) == Bytes(Index(pos, b), b) && Offset(pos, b) <= pos
  {
  }

  /** FAT32_read on a file: exactly what it returns, for every position and count. It is right if
      the position is at a cluster's start or the bytes lie in one cluster. Otherwise it delivers
      bytes from the start of the cluster, or, for less than a cluster's size, leaves the chain. */
  lemma ReadExact(v: Volume, b: nat, f: File, chain: seq<nat>, count: nat)
    requires f.first > 0 && f.pos <= f.size && f.pos + count < TWO_64
    requires chain != [] && f.first == chain[0] && f.size <= |Contents(v, chain)| && Chain(v, chain) && WellFormed(v, b)
    ensures var n := if f.pos + count > f.size then f.size - f.pos else count;
      var offset := Offset(f.pos, b); var all := Contents(v, chain); var r := Read(v, b, f, count);
      && (offset == 0 || n <= b - offset ==> r == ReadReturns(n, f.(pos := f.pos + n), all[f.pos..f.pos + n]))
      && (offset != 0 && n > b - offset && n >= b ==>
            f.pos - offset + n <= |all| && r == ReadReturns(n, f.(pos := f.pos + n), all[f.pos - offset..f.pos - offset + n]))
      && (offset != 0 && b - offset < n < b ==> r == ReadFails)
  {
    hide Chain, WellFormed, Contents, Follow, ReadLoop, Cut, Index, Offset;
    Limits(v, b);
    CutFacts(v, f, count);
    ReadAt(v, b, chain, f.pos, Cut(f, count));
  }

  /** A file without clusters: reading answers an error and gives nothing; a position beyond the size
      cannot be reached by a seek, and one inside can. */
  lemma EmptyAndSeek(v: Volume, b: nat, f: File, count: nat, pos: nat)
    requires 0 < b <= TWO_64
    ensures f.first == 0 ==> Read(v, b, f, count) == ReadReturns(EFAULT, f, [])
    ensures var (ret, f1) := Seek(f, pos);
      && f1.first == f.first && f1.size == f.size
      && (pos <= f.size ==> ret == f1.pos == pos) && (pos > f.size ==> ret == EOVERFLOW && f1 == f)
  {
  }

  /** The loop from any position. */
  lemma ReadAt(v: Volume, b: nat, chain: seq<nat>, pos: nat, n: nat)
    requires Chain(v, chain) && pos + n <= |Contents(v, chain)| && WellFormed(v, b)
    ensures var all := Contents(v, chain); var offset := Offset(pos, b);
      var r := ReadLoop(v, b, Follow(v.table, chain[0], Index(pos, b)), 0, n, offset);
      && (offset == 0 || n <= b - offset ==> r == ReadTo(all[pos..pos + n], 0))
      && (offset != 0 && b - offset < n && b <= n ==> offset <= pos && r == ReadTo(all[pos - offset..pos - offset + n], 0))
      && (offset != 0 && b - offset < n < b ==> r == ReadOutside)
  {
    hide Chain, WellFormed, Contents, Follow, Index, Offset, Inside, Next;
    if n > 0 {
      var x, tail := PositionParts(v, b, chain, pos);
      hide ReadLoop;
      var offset := Offset(pos, b);
      Shifted(Contents(v, chain), x, Contents(v, tail), pos, offset, n);
      PieceRead(v, b, tail, n, offset);
    }
  }

  lemma PositionParts(v: Volume, b: nat, chain: seq<nat>, pos: nat) returns (x: seq<byte>, tail: seq<nat>)
    requires pos < |Contents(v, chain)| && Chain(v, chain) && WellFormed(v, b)
    ensures tail != [] && Follow(v.table, chain[0], Index(pos, b)) == tail[0] && Chain(v, tail)
    ensures Contents(v, chain) == x + Contents(v, tail) && pos == |x| + Offset(pos, b)
    ensures Index(pos, b) < |chain| && tail == chain[Index(pos, b)..] && x == Contents(v, chain[..Index(pos, b)])
  {
    Position(v, b, chain, pos);
    x, tail := Contents(v, chain[..Index(pos, b)]), chain[Index(pos, b)..];
  }

  lemma CutFacts(v: Volume, f: File, count: nat)
    requires f.pos <= f.size && f.pos + count < TWO_64
    ensures Cut(f, count) == if f.pos + count > f.size then f.size - f.pos else count
  {
  }

  lemma Shifted<T>(all: seq<T>, x: seq<T>, y: seq<T>, pos: nat, offset: nat, n: nat)
    requires all == x + y && offset + n <= |y| && pos == |x| + offset
    ensures all[pos..pos + n] == y[offset..offset + n] && all[pos - offset..pos - offset + n] == y[..n]
  {
  }

  lemma PieceRead(v: Volume, b: nat, chain: seq<nat>, left: nat, offset: nat)
    requires Chain(v, chain) && offset < b && 0 < left && offset + left <= |Contents(v, chain)| && WellFormed(v, b)
    ensures var all := Contents(v, chain); var r := ReadLoop(v, b, chain[0], 0, left, offset);
      && (offset == 0 || left <= b - offset ==> r == ReadTo(all[offset..offset + left], 0))
      && (offset != 0 && b - offset < left && b <= left ==> r == ReadTo(all[..left], 0))
      && (offset != 0 && b - offset < left < b ==> r == ReadOutside)
  {
    if offset == 0 {
      ReadsInOrder(v, b, chain, 0, left);
      assert Contents(v, chain)[..left] == Contents(v, chain)[0..left];
    } else if left <= b - offset {
      ReadsWithin(v, b, chain, left, offset);
    } else {
      ReadsBeyond(v, b, chain, left, offset);
    }
  }

  // ----- writing -----

  lemma {:induction false} FirstFreeIs(t: seq<nat>, i: nat)
    requires i <= |t|
    ensures var r := FirstFree(t, i);
      i <= r <= |t| && (r < |t| ==> t[r] == 0) && forall j | i <= j < r :: t[j] != 0
    decreases |t| - i
  {
    if i < |t| && t[i] != 0 { FirstFreeIs(t, i + 1); }
  }

  /** Between v and w only the clusters of own and more changed, in data and table, and those of more
      were free. */
  ghost predicate Framed(v: Volume, w: Volume, own: seq<nat>, more: seq<nat>)
  {
    && |w.clusters| == |v.clusters| && |w.table| == |v.table|
    && (forall c | Inside(v, c) && c !in own && c !in more :: w.clusters[c - 2] == v.clusters[c - 2])
    && (forall i | 0 <= i < |v.table| && i !in own && i !in more :: w.table[i] == v.table[i])
    && (forall c | c in more :: Inside(v, c) && c < |v.table| && v.table[c] == 0 && c !in own)
  }

  /** Some entry beyond those of the data clusters is free. */
  ghost predicate Spare(v: Volume)
  {
    exists i :: |v.clusters| + 2 <= i < |v.table| && v.table[i] == 0
  }

  /** all is what `was` became when n bytes of buf were written over its start; grown tells that it
      became longer, by whole clusters of b bytes. */
  ghost predicate Landed(all: seq<byte>, was: seq<byte>, buf: seq<byte>, n: nat, b: nat, grown: bool)
  {
    && n <= |buf| && n <= |all| && all[..n] == buf[..n] && (buf != [] ==> n > 0)
    && (!grown ==> n <= |was| && all == buf[..n] + was[n..])
    && (grown ==> |was| <= n && |all| < n + b)
  }

  ghost predicate Wrote(v: Volume, w: Volume, b: nat, own: seq<nat>, more: seq<nat>, buf: seq<byte>, n: nat)
  {
    Landed(Contents(w, own + more), Contents(v, own), buf, n, b, more != [])
  }

  /** One cluster before the rest. */
  lemma LandedFirst(all: seq<byte>, was: seq<byte>, buf: seq<byte>, n: nat, b: nat, grown: bool, x: seq<byte>)
    requires |x| == b < |buf| && Landed(all, was, buf[b..], n, b, grown)
    ensures Landed(buf[..b] + all, x + was, buf, n + b, b, grown)
  {
  }

  /** Writing one cluster. */
  lemma ClusterWritten(v: Volume, b: nat, c: nat, x: seq<byte>)
    requires WellFormed(v, b) && Inside(v, c) && |x| == b
    ensures var w := v.(clusters := v.clusters[c - 2 := x]);
      WellFormed(w, b) && Framed(v, w, [c], [])
  {
  }

  /** Linking a free cluster behind the last one. */
  lemma ClusterAdded(v: Volume, b: nat, c: nat, n: nat)
    requires WellFormed(v, b) && Inside(v, c) && Inside(v, n) && v.table[n] == 0 && c != n
    ensures var w := v.(table := SetNext(SetNext(v.table, c, n), n, END));
      WellFormed(w, b) && Framed(v, w, [c], [n]) && Chain(w, [n]) && w.table[c] == n && w.clusters == v.clusters
      && (Spare(w) ==> Spare(v))
  {
  }

  /** What the loop, started at the first cluster of own, has done: it wrote to that chain and to free
      clusters behind it, and stopped early only when no entry is free. It asks for a cluster
      outside the volume only if the table has a spare free entry. */
  ghost predicate WriteGood(v: Volume, b: nat, own: seq<nat>, buf: seq<byte>, r: WriteRes, more: seq<nat>)
  {
    match r
    case WriteOutside => Spare(v)
    case WroteTo(w, left) =>
      && left <= |buf| && WellFormed(w, b) && Chain(w, own + more) && Framed(v, w, own, more)
      && Wrote(v, w, b, own, more, buf, |buf| - left) && (left > 0 ==> FirstFree(w.table, 0) == |w.table|)
  }

  lemma ContentsFirst(v: Volume, c: nat, rest: seq<nat>)
    requires Inside(v, c)
    ensures Contents(v, [c] + rest) == v.clusters[c - 2] + Contents(v, rest)
  {
  }

  lemma WroteFirst(v: Volume, v1: Volume, w: Volume, b: nat, c: nat, own: seq<nat>, more: seq<nat>, buf: seq<byte>, n: nat)
    requires |buf| > b && Inside(v, c) && Inside(w, c) && |v.clusters[c - 2]| == b && w.clusters[c - 2] == buf[..b]
    requires Contents(v, own) == Contents(v1, own) && Wrote(v1, w, b, own, more, buf[b..], n)
    ensures Wrote(v, w, b, [c] + own, more, buf, n + b)
  {
    hide Landed, Contents;
    LandedFirst(Contents(w, own + more), Contents(v, own), buf, n, b, more != [], v.clusters[c - 2]);
    ContentsFirst(v, c, own);
    ContentsFirst(w, c, own + more);
    assert [c] + own + more == [c] + (own + more);
  }

  lemma WroteAdded(v: Volume, v2: Volume, w: Volume, b: nat, c: nat, x: nat, more: seq<nat>, buf: seq<byte>, n: nat)
    requires |buf| > b && Inside(v, c) && Inside(w, c) && |v.clusters[c - 2]| == b && w.clusters[c - 2] == buf[..b]
    requires Wrote(v2, w, b, [x], more, buf[b..], n) && |Contents(w, [x])| == b
    ensures Wrote(v, w, b, [c], [x] + more, buf, n + b)
  {
    var all := Contents(w, [x] + more);
    ContentsFirst(w, c, [x] + more);
    ContentsFirst(v, c, []);
    assert [c] + [] == [c] && [x] + [] == [x];
    hide Contents;
    assert buf[..n + b] == buf[..b] + buf[b..][..n];
    assert (buf[..b] + all)[..n + b] == buf[..b] + all[..n];
  }

  lemma LandedShort(x: seq<byte>, rest: seq<byte>, buf: seq<byte>, b: nat)
    requires |x| == b && |buf| <= b && buf != []
    ensures Landed(Patch(x, 0, buf) + rest, x + rest, buf, |buf|, b, false)
  {
  }

  /** At most one cluster to write. */
  lemma WritesShort(v: Volume, b: nat, own: seq<nat>, buf: seq<byte>, cmd: Command)
    requires Chain(v, own) && |buf| <= b && WellFormed(v, b)
    ensures WriteGood(v, b, own, buf, WriteLoop(v, b, own[0], 0, buf, cmd), [])
  {
    hide Landed, FirstFree, Chain, WellFormed, Contents, Framed, WriteLoop;
    NotEmpty(v, b, own);
    assert own + [] == own;
    if buf != [] { WriteOne(v, b, own, buf, cmd); } else { WriteNothing(v, b, own, cmd); }
  }

  lemma WriteNothing(v: Volume, b: nat, own: seq<nat>, cmd: Command)
    requires b > 0 && own != []
    ensures WriteLoop(v, b, own[0], 0, [], cmd) == WroteTo(v, 0) && Framed(v, v, own, [])
    ensures Landed(Contents(v, own), Contents(v, own), [], 0, b, false)
  {
  }

  lemma WriteOne(v: Volume, b: nat, own: seq<nat>, buf: seq<byte>, cmd: Command)
    requires Chain(v, own) && 0 < |buf| <= b && WellFormed(v, b)
    ensures var r := WriteLoop(v, b, own[0], 0, buf, cmd);
      && r.WroteTo? && r.left == 0 && WellFormed(r.vol, b) && Chain(r.vol, own) && Framed(v, r.vol, own, [])
      && Landed(Contents(r.vol, own), Contents(v, own), buf, |buf|, b, false)
  {
    hide Landed, Patch, Chain, WellFormed, Contents, Framed;
    NotEmpty(v, b, own);
    var c := own[0];
    var x := v.clusters[c - 2];
    assert buf[..|buf|] == buf;
    var y := Patch(x, 0, buf);
    FirstChanged(v, b, own, y);
    LandedShort(x, Contents(v, own[1..]), buf, b);
    assert WriteLoop(v, b, c, 0, buf, cmd) == WroteTo(v.(clusters := v.clusters[c - 2 := y]), 0);
  }

  /** Other contents in the first cluster of a chain. */
  lemma FirstChanged(v: Volume, b: nat, own: seq<nat>, y: seq<byte>)
    requires Chain(v, own) && |y| == b && WellFormed(v, b)
    ensures Inside(v, own[0])
    ensures var w := v.(clusters := v.clusters[own[0] - 2 := y]);
      && WellFormed(w, b) && Chain(w, own) && Framed(v, w, [own[0]], []) && Framed(v, w, own, [])
      && Contents(v, own) == v.clusters[own[0] - 2] + Contents(v, own[1..]) && Contents(w, own) == y + Contents(v, own[1..])
  {
    assert Inside(v, own[0]);
    ClusterWritten(v, b, own[0], y);
    ChainDistinct(v, own);
    ContentsSame(v, v.(clusters := v.clusters[own[0] - 2 := y]), own[1..]);
  }

  /** The volume after the first of several clusters. */
  function WithFirst(v: Volume, c: nat, buf: seq<byte>, b: nat): (r: Volume)
    requires Inside(v, c) && b <= |buf|
  {
    v.(clusters := v.clusters[c - 2 := buf[..b]])
  }

  lemma StepOn(v: Volume, b: nat, own: seq<nat>, buf: seq<byte>, cmd: Command)
    requires Chain(v, own) && |own| > 1 && |buf| > b && WellFormed(v, b)
    ensures var v1 := WithFirst(v, own[0], buf, b);
      && WellFormed(v1, b) && Chain(v1, own[1..]) && Framed(v, v1, [own[0]], []) && own[0] !in own[1..]
      && Contents(v1, own[1..]) == Contents(v, own[1..])
      && WriteLoop(v, b, own[0], 0, buf, cmd) == WriteLoop(v1, b, own[1], 0, buf[b..], cmd)
  {
    var c := own[0];
    assert Inside(v, c) && |v.clusters[c - 2]| == b;
    LastOrNot(v, own);
    ChainDistinct(v, own);
    var v1 := WithFirst(v, c, buf, b);
    ClusterWritten(v, b, c, buf[..b]);
    TailChain(v, own);
    ContentsSame(v, v1, own[1..]);
    assert Patch(v.clusters[c - 2], 0, buf[..b]) == buf[..b];
    assert Chain(v1, own[1..]);
  }

  lemma NotEmpty(v: Volume, b: nat, own: seq<nat>)
    requires Chain(v, own) && WellFormed(v, b)
    ensures b > 0 && own != [] && Inside(v, own[0]) && own[0] < |v.table| && |v.clusters[own[0] - 2]| == b
    ensures |own| > 1 ==> v.table[own[0]] == own[1] != 0
  {
  }

  /** A step along the chain before a good rest is good. */
  lemma GoodOn(v: Volume, b: nat, own: seq<nat>, buf: seq<byte>, r: WriteRes, more: seq<nat>)
    requires Chain(v, own) && |own| > 1 && |buf| > b && WellFormed(v, b)
    requires var v1 := WithFirst(v, own[0], buf, b);
      && WellFormed(v1, b) && Framed(v, v1, [own[0]], []) && own[0] !in own[1..]
      && Contents(v1, own[1..]) == Contents(v, own[1..])
      && WriteGood(v1, b, own[1..], buf[b..], r, more)
    ensures WriteGood(v, b, own, buf, r, more)
  {
    hide Chain, WellFormed, Contents, Wrote, FirstFree, Framed;
    var c := own[0];
    NotEmpty(v, b, own);
    var v1 := WithFirst(v, c, buf, b);
    assert own == [c] + own[1..];
    if r.WroteTo? {
      GoodLink(v, v1, r.vol, c, own[1..], more);
      WroteFirst(v, v1, r.vol, b, c, own[1..], more, buf, |buf| - b - r.left);
      assert [c] + (own[1..] + more) == own + more;
    }
  }

  lemma GoodLink(v: Volume, v1: Volume, w: Volume, c: nat, rest: seq<nat>, more: seq<nat>)
    requires rest != [] && c !in rest && Inside(v, c) && c < |v.table| && v.table[c] == rest[0] != 0 && v1.table == v.table
    requires Framed(v, v1, [c], []) && Framed(v1, w, rest, more) && Chain(w, rest + more)
    ensures Framed(v, w, [c] + rest, more) && Chain(w, [c] + (rest + more)) && c !in more
    ensures |v1.clusters| == |v.clusters| == |w.clusters|
    ensures w.clusters[c - 2] == v1.clusters[c - 2]
  {
  }

  /** The last cluster is full and a free one is found. */
  lemma StepAdd(v: Volume, b: nat, c: nat, buf: seq<byte>, x: nat)
    requires Chain(v, [c]) && |buf| > b && x == FirstFree(v.table, 0) && Inside(v, x) && WellFormed(v, b)
    ensures var v1 := WithFirst(v, c, buf, b); var v2 := v1.(table := SetNext(SetNext(v.table, c, x), x, END));
      && c != x && WellFormed(v2, b) && Chain(v2, [x]) && Framed(v, v2, [c], [x]) && v2.table[c] == x
      && (Spare(v2) ==> Spare(v)) && v2.clusters[c - 2] == buf[..b]
      && WriteLoop(v, b, c, 0, buf, ReadDma) == WriteLoop(v2, b, x, 0, buf[b..], ReadDma)
  {
    assert Inside(v, c) && |v.clusters[c - 2]| == b;
    FirstFreeIs(v.table, 0);
    var v1 := WithFirst(v, c, buf, b);
    ClusterWritten(v, b, c, buf[..b]);
    ClusterAdded(v1, b, c, x);
    assert Patch(v.clusters[c - 2], 0, buf[..b]) == buf[..b];
  }

  /** A free cluster behind the chain before a good rest is good. */
  lemma GoodAdd(v: Volume, v2: Volume, b: nat, c: nat, buf: seq<byte>, x: nat, r: WriteRes, more: seq<nat>)
    requires Chain(v, [c]) && |buf| > b && c != x && Inside(v, x) && Framed(v, v2, [c], [x])
    requires (Spare(v2) ==> Spare(v)) && Inside(v2, c) && v2.clusters[c - 2] == buf[..b] && c < |v2.table| && v2.table[c] == x
    requires WriteGood(v2, b, [x], buf[b..], r, more) && WellFormed(v, b)
    ensures WriteGood(v, b, [c], buf, r, [x] + more)
  {
    hide Chain, WellFormed, Contents, Wrote, FirstFree, Framed;
    NotEmpty(v, b, [c]);
    if r.WroteTo? {
      var w := r.vol;
      NotEmpty(w, b, [x] + more);
      OneCluster(w, b, x);
      AddLink(v, v2, w, c, x, more);
      WroteAdded(v, v2, w, b, c, x, more, buf, |buf| - b - r.left);
    }
  }

  lemma OneCluster(w: Volume, b: nat, x: nat)
    requires WellFormed(w, b) && Inside(w, x)
    ensures |Contents(w, [x])| == b
  {
  }

  lemma AddLink(v: Volume, v2: Volume, w: Volume, c: nat, x: nat, more: seq<nat>)
    requires c != x && Inside(v, c) && Inside(v, x) && c < |v2.table| && v2.table[c] == x
    requires Framed(v, v2, [c], [x]) && Framed(v2, w, [x], more) && Chain(w, [x] + more)
    ensures |v2.clusters| == |v.clusters| == |w.clusters| && w.clusters[c - 2] == v2.clusters[c - 2]
    ensures Framed(v, w, [c], [x] + more) && Chain(w, [c] + ([x] + more))
  {
  }

  /** The last cluster is full and no entry is free. */
  lemma StepNoSpace(v: Volume, b: nat, c: nat, buf: seq<byte>)
    requires Chain(v, [c]) && |buf| > b && FirstFree(v.table, 0) == |v.table| && WellFormed(v, b)
    ensures var r := WriteLoop(v, b, c, 0, buf, ReadDma); r.WroteTo? && r.left > 0 && WriteGood(v, b, [c], buf, r, [])
  {
  }

  /** The found cluster is beyond the data area. */
  lemma StepSpare(v: Volume, b: nat, c: nat, buf: seq<byte>)
    requires Chain(v, [c]) && |buf| > b && FirstFree(v.table, 0) < |v.table| && !Inside(v, FirstFree(v.table, 0)) && WellFormed(v, b)
    ensures WriteLoop(v, b, c, 0, buf, ReadDma) == WriteOutside && Spare(v)
  {
    FirstFreeIs(v.table, 0);
    var x := FirstFree(v.table, 0);
    assert Inside(v, c) && |v.clusters[c - 2]| == b;
    assert v.table[x] == 0 && x >= |v.clusters| + 2;
  }

  /** FAT32_write's loop from the start of a chain's cluster, with the search reading the table:
      whatever the length, the bytes are in the chain, which grows by free clusters as needed. */
  lemma {:induction false} WritesInOrder(v: Volume, b: nat, own: seq<nat>, buf: seq<byte>) returns (more: seq<nat>)
    requires Chain(v, own) && WellFormed(v, b)
    ensures WriteGood(v, b, own, buf, WriteLoop(v, b, own[0], 0, buf, ReadDma), more)
    decreases |buf|, 1
  {
    hide Chain, WriteLoop, FirstFree, Framed, Contents, Wrote;
    NotEmpty(v, b, own);
    hide WellFormed;
    if |buf| <= b {
      more := [];
      WritesShort(v, b, own, buf, ReadDma);
    } else if |own| > 1 {
      StepOn(v, b, own, buf, ReadDma);
      more := WritesInOrder(WithFirst(v, own[0], buf, b), b, own[1..], buf[b..]);
      GoodOn(v, b, own, buf, WriteLoop(v, b, own[0], 0, buf, ReadDma), more);
    } else {
      assert own == [own[0]];
      more := WritesAtEnd(v, b, own[0], buf);
    }
  }

  lemma {:induction false} WritesAtEnd(v: Volume, b: nat, c: nat, buf: seq<byte>) returns (more: seq<nat>)
    requires Chain(v, [c]) && |buf| > b && WellFormed(v, b)
    ensures WriteGood(v, b, [c], buf, WriteLoop(v, b, c, 0, buf, ReadDma), more)
    decreases |buf|, 0
  {
    more := [];
    NotEmpty(v, b, [c]);
    FirstFreeIs(v.table, 0);
    hide Chain, WriteLoop, FirstFree, Framed, Contents, Wrote;
    var x := FirstFree(v.table, 0);
    if x == |v.table| {
      StepNoSpace(v, b, c, buf);
    } else if !Inside(v, x) {
      StepSpare(v, b, c, buf);
    } else {
      StepAdd(v, b, c, buf, x);
      var v2 := WithFirst(v, c, buf, b).(table := SetNext(SetNext(v.table, c, x), x, END));
      more := WritesInOrder(v2, b, [x], buf[b..]);
      GoodAdd(v, v2, b, c, buf, x, WriteLoop(v, b, c, 0, buf, ReadDma), more);
      more := [x] + more;
    }
  }
}
