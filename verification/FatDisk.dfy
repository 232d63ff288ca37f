/** The two copies of the file allocation table on the disk (Kernel/fat32.c: Read_FAT, WRITE_FAT,
    FAT32_find_available_cluster) and FAT32_read, FAT32_write over them. Numbers on the disk are
    little-endian. */
module FatDisk {
  import opened Words
  import opened FatFiles

  const SECTOR: nat := 512

  /** The volume's places in sectors: FirstFAT1Sector, sector_per_FAT, BPB_SecPerClus; the number of
      data clusters. FAT2 follows FAT1, and the data follow FAT2. */
  datatype Geometry = Geometry(fat1: nat, spf: nat, spc: nat, count: nat)
  {
    function Fat1(): nat { fat1 * SECTOR }
    function Fat2(): nat { (fat1 + spf) * SECTOR }
    function Data(): nat { (fat1 + 2 * spf) * SECTOR }
    function Entries(): nat { spf * 128 }
    function BytesPerClus(): nat { spc * SECTOR }
    /** First byte of a data cluster. */
    function ClusterAt(c: nat): nat
      requires c >= 2
    {
      Data() + Bytes(c - 2, BytesPerClus())
    }
    function Size(): nat { Data() + Bytes(count, BytesPerClus()) }
  }

  /** A 32-bit number at a place. */
  function Get32(d: seq<byte>, at: nat): (r: nat)
    requires at + 4 <= |d|
    ensures r < 0x1_0000_0000
  {
    var b0: nat, b1: nat, b2: nat, b3: nat := d[at], d[at + 1], d[at + 2], d[at + 3];
    b0 + b1 * 0x100 + b2 * 0x1_0000 + b3 * 0x100_0000
  }

  function Put32(x: nat): (r: seq<byte>)
    requires x < 0x1_0000_0000
    ensures |r| == 4
  {
    [x % 0x100, x / 0x100 % 0x100, x / 0x1_0000 % 0x100, x / 0x100_0000]
  }

  lemma PutGet(d: seq<byte>, at: nat, x: nat)
    requires x < 0x1_0000_0000 && at + 4 <= |d| && d[at..at + 4] == Put32(x)
    ensures Get32(d, at) == x
  {
    Digits(x);
    var y := d[at..at + 4];
    assert y[0] == d[at] && y[1] == d[at + 1] && y[2] == d[at + 2] && y[3] == d[at + 3];
    hide Put32;
    assert y[0] == Put32(x)[0] && y[1] == Put32(x)[1] && y[2] == Put32(x)[2] && y[3] == Put32(x)[3];
  }

  lemma Digits(x: nat)
    requires x < 0x1_0000_0000
    ensures var y := Put32(x); var b0: nat, b1: nat, b2: nat, b3: nat := y[0], y[1], y[2], y[3];
      b0 + b1 * 0x100 + b2 * 0x1_0000 + b3 * 0x100_0000 == x
  {
  }

  lemma GetSame(d: seq<byte>, e: seq<byte>, at: nat, to: nat)
    requires at + 4 <= |d| && to + 4 <= |e| && e[to..to + 4] == d[at..at + 4]
    ensures Get32(e, to) == Get32(d, at)
  {
    assert d[at..at + 4][0] == d[at] && d[at..at + 4][1] == d[at + 1];
    assert d[at..at + 4][2] == d[at + 2] && d[at..at + 4][3] == d[at + 3];
    assert e[to..to + 4][0] == e[to] && e[to..to + 4][1] == e[to + 1];
    assert e[to..to + 4][2] == e[to + 2] && e[to..to + 4][3] == e[to + 3];
  }

  /** The disk is as large as the volume says. */
  predicate Fits(d: seq<byte>, g: Geometry)
  {
    |d| == g.Size() && g.spc > 0 && g.spf > 0
  }

  /** The entries of the first copy, and the data clusters. */
  function View(d: seq<byte>, g: Geometry): (v: Volume)
    requires Fits(d, g)
  {
    Volume(seq(g.Entries(), i requires 0 <= i < g.Entries() => EntryAt(d, g, i)),
           seq(g.count, i requires 0 <= i < g.count => ClusterOf(d, g, i + 2)))
  }

  /** Read_FAT: the low 28 bits of the entry. */
  function EntryAt(d: seq<byte>, g: Geometry, c: nat): (r: nat)
    requires Fits(d, g) && c < g.Entries()
  {
    Get32(d, g.Fat1() + 4 * c) % TWO_28
  }

  lemma ClusterRange(g: Geometry, c: nat)
    requires 2 <= c < g.count + 2
    ensures g.Data() <= g.ClusterAt(c) && g.ClusterAt(c) + g.BytesPerClus() <= g.Size()
  {
    Multiples(c - 2, g.count, g.BytesPerClus());
  }

  lemma Multiples(m: nat, n: nat, b: nat)
    requires m < n
    ensures Bytes(m, b) + b <= Bytes(n, b)
  {
    assert (m + 1) * b <= n * b;
  }

  function ClusterOf(d: seq<byte>, g: Geometry, c: nat): (r: seq<byte>)
    requires Fits(d, g) && 2 <= c < g.count + 2
    ensures |r| == g.BytesPerClus()
  {
    ClusterRange(g, c);
    d[g.ClusterAt(c)..g.ClusterAt(c) + g.BytesPerClus()]
  }

  /** Both copies are the same. */
  ghost predicate Mirrored(d: seq<byte>, g: Geometry)
    requires Fits(d, g)
  {
    d[g.Fat1()..g.Fat2()] == d[g.Fat2()..g.Data()]
  }

  // ----- WRITE_FAT -----

  /** The sector of an entry within its copy of the table, and the entry's place in the sector. */
  function SectorOf(c: nat): (r: nat) { c / 128 * SECTOR }

  function PlaceOf(c: nat): (r: nat) { c % 128 * 4 }

  lemma EntryPlace(g: Geometry, c: nat)
    requires c < g.Entries()
    ensures SectorOf(c) + PlaceOf(c) == 4 * c && PlaceOf(c) + 4 <= SECTOR && SectorOf(c) + SECTOR <= g.Fat2() - g.Fat1()
    ensures g.Fat1() + (g.Fat2() - g.Fat1()) == g.Fat2() && g.Fat2() + (g.Fat2() - g.Fat1()) == g.Data()
  {
  }

  /** The volume on the disk: two tables of equal length with four bytes an entry, then the clusters one
      after the other, from cluster 2 to the end. */
  lemma Laying(g: Geometry, c: nat)
    requires 2 <= c
    ensures g.Fat1() == SECTOR * g.fat1 && g.Fat2() - g.Fat1() == g.Data() - g.Fat2() == 4 * g.Entries() == SECTOR * g.spf
    ensures g.ClusterAt(2) == g.Data() && g.ClusterAt(g.count + 2) == g.Size()
    ensures g.ClusterAt(c + 1) == g.ClusterAt(c) + SECTOR * g.spc
  {
    OneMoreTimes(c - 2, g.BytesPerClus());
  }

  lemma OneMoreTimes(n: nat, b: nat)
    ensures Bytes(n + 1, b) == Bytes(n, b) + b && Bytes(0, b) == 0
  {
  }

  /** The mark at the end of a chain, on the disk: the lowest byte comes first. */
  lemma EndMarkBytes(d: seq<byte>, at: nat)
    requires at + 4 <= |d| && d[at..at + 4] == Put32(END)
    ensures d[at] == 0xf8 && d[at + 1] == 0xff && d[at + 2] == 0xff && d[at + 3] == 0x0f
  {
    assert d[at..at + 4][0] == 0xf8 && d[at..at + 4][1] == 0xff && d[at..at + 4][2] == 0xff && d[at..at + 4][3] == 0x0f;
  }

  /** The new value of an entry: the top four bits stay. */
  function Merged(word: nat, x: nat): (r: nat)
    requires word < 0x1_0000_0000
    ensures r < 0x1_0000_0000 && r % TWO_28 == x % TWO_28 && r / TWO_28 == word / TWO_28
  {
    word / TWO_28 * TWO_28 + x % TWO_28
  }

  /** The sector with the entry changed, written to both copies. */
  function WriteFat(d: seq<byte>, g: Geometry, c: nat, x: nat): (r: seq<byte>)
    requires Fits(d, g) && c < g.Entries()
    ensures |r| == |d|
  {
    EntryPlace(g, c);
    var at := g.Fat1() + SectorOf(c);
    var buf := d[at..at + SECTOR];
    var buf' := Patch(buf, PlaceOf(c), Put32(Merged(Get32(buf, PlaceOf(c)), x)));
    Patch(Patch(d, at, buf'), g.Fat2() + SectorOf(c), buf')
  }

  /** A byte of the entry's sector after the write. */
  function NewByte(d: seq<byte>, at: nat, x: nat, p: nat): (r: byte)
    requires at + 4 <= |d| && p < |d|
  {
    if at <= p < at + 4 then Put32(Merged(Get32(d, at), x))[p - at] else d[p]
  }

  lemma BufferByte(d: seq<byte>, g: Geometry, c: nat, x: nat, i: nat)
    requires i < SECTOR && c < g.Entries() && Fits(d, g)
    ensures SectorOf(c) + PlaceOf(c) == 4 * c && PlaceOf(c) + 4 <= SECTOR && g.Fat1() + SectorOf(c) + SECTOR <= |d|
    ensures var buf := d[g.Fat1() + SectorOf(c)..g.Fat1() + SectorOf(c) + SECTOR];
      Patch(buf, PlaceOf(c), Put32(Merged(Get32(buf, PlaceOf(c)), x)))[i] == NewByte(d, g.Fat1() + 4 * c, x, g.Fat1() + SectorOf(c) + i)
  {
  }

  /** Every byte of the disk after WRITE_FAT. */
  lemma FatByte(d: seq<byte>, g: Geometry, c: nat, x: nat, p: nat)
    requires p < |d| && c < g.Entries() && Fits(d, g)
    ensures var at, sec, len := g.Fat1() + 4 * c, g.Fat1() + SectorOf(c), g.Fat2() - g.Fat1();
      && sec + SECTOR <= g.Fat2() && g.Fat1() <= g.Fat2() && sec <= at && at + 4 <= sec + SECTOR && g.Fat2() + len == g.Data() <= |d|
      && WriteFat(d, g, c, x)[p] == if sec <= p < sec + SECTOR then NewByte(d, at, x, p)
           else if sec + len <= p < sec + len + SECTOR then NewByte(d, at, x, p - len) else d[p]
  {
    EntryPlace(g, c);
    var sec, len := g.Fat1() + SectorOf(c), g.Fat2() - g.Fat1();
    BufferByte(d, g, c, x, if sec <= p < sec + SECTOR then p - sec else if sec + len <= p < sec + len + SECTOR then p - sec - len else 0);
    hide Get32, Put32, Merged, NewByte;
    var buf := d[sec..sec + SECTOR];
    var buf' := Patch(buf, PlaceOf(c), Put32(Merged(Get32(buf, PlaceOf(c)), x)));
    hide Patch, PlaceOf, SectorOf;
    PatchTwice(d, sec, sec + len, buf', p);
  }

  lemma PatchTwice(d: seq<byte>, at: nat, to: nat, x: seq<byte>, p: nat)
    requires at + |x| <= to && to + |x| <= |d| && p < |d|
    ensures Patch(Patch(d, at, x), to, x)[p] == if at <= p < at + |x| then x[p - at] else if to <= p < to + |x| then x[p - to] else d[p]
  {
  }

  lemma OwnBytes(d: seq<byte>, g: Geometry, c: nat, x: nat)
    requires c < g.Entries() && Fits(d, g)
    ensures var at, r := g.Fat1() + 4 * c, WriteFat(d, g, c, x);
      at + 4 <= |d| && r[at..at + 4] == Put32(Merged(Get32(d, at), x))
  {
    EntryPlace(g, c);
    var at, r := g.Fat1() + 4 * c, WriteFat(d, g, c, x);
    hide WriteFat, Merged, Put32, Get32;
    forall p | at <= p < at + 4 ensures r[p] == Put32(Merged(Get32(d, at), x))[p - at] { FatByte(d, g, c, x, p); }
  }

  lemma OtherBytes(d: seq<byte>, g: Geometry, c: nat, x: nat, i: nat)
    requires i < g.Entries() && c < g.Entries() && i != c && Fits(d, g)
    ensures var at, r := g.Fat1() + 4 * i, WriteFat(d, g, c, x); at + 4 <= |d| && r[at..at + 4] == d[at..at + 4]
  {
    EntryPlace(g, i);
    EntryPlace(g, c);
    var at, r := g.Fat1() + 4 * i, WriteFat(d, g, c, x);
    hide WriteFat, Merged, Put32, Get32;
    forall p | at <= p < at + 4 ensures r[p] == d[p] { FatByte(d, g, c, x, p); }
  }

  lemma FatEntry(d: seq<byte>, g: Geometry, c: nat, x: nat, i: nat)
    requires i < g.Entries() && c < g.Entries() && Fits(d, g)
    ensures g.Fat1() + 4 * i + 4 <= |d|
    ensures var at := g.Fat1() + 4 * i;
      Get32(WriteFat(d, g, c, x), at) == if i == c then Merged(Get32(d, at), x) else Get32(d, at)
  {
    hide WriteFat, Merged, Put32, Get32;
    var at, r := g.Fat1() + 4 * i, WriteFat(d, g, c, x);
    if i == c {
      OwnBytes(d, g, c, x);
      PutGet(r, at, Merged(Get32(d, at), x));
    } else {
      OtherBytes(d, g, c, x, i);
      GetSame(d, r, at, at);
    }
  }

  lemma FatCluster(d: seq<byte>, g: Geometry, c: nat, x: nat, k: nat)
    requires 2 <= k < g.count + 2 && c < g.Entries() && Fits(d, g)
    ensures ClusterOf(WriteFat(d, g, c, x), g, k) == ClusterOf(d, g, k)
  {
    ClusterRange(g, k);
    var r := WriteFat(d, g, c, x);
    forall p | g.Data() <= p < |d| ensures r[p] == d[p] { FatByte(d, g, c, x, p); }
  }

  lemma FatMirrored(d: seq<byte>, g: Geometry, c: nat, x: nat)
    requires c < g.Entries() && Fits(d, g) && Mirrored(d, g)
    ensures Mirrored(WriteFat(d, g, c, x), g)
  {
    var r, len := WriteFat(d, g, c, x), g.Fat2() - g.Fat1();
    EntryPlace(g, c);
    forall p | g.Fat1() <= p < g.Fat2() ensures r[p] == r[p + len] {
      assert d[g.Fat1()..g.Fat2()][p - g.Fat1()] == d[g.Fat2()..g.Data()][p - g.Fat1()];
      FatByte(d, g, c, x, p);
      FatByte(d, g, c, x, p + len);
      hide NewByte, WriteFat;
    }
    assert r[g.Fat1()..g.Fat2()] == r[g.Fat2()..g.Data()];
  }

  lemma FatEntries(d: seq<byte>, g: Geometry, c: nat, x: nat)
    requires c < g.Entries() && Fits(d, g)
    ensures forall i | 0 <= i < g.Entries() :: EntryAt(WriteFat(d, g, c, x), g, i) == if i == c then x % TWO_28 else EntryAt(d, g, i)
  {
    var r := WriteFat(d, g, c, x);
    hide WriteFat, Get32;
    forall i | 0 <= i < g.Entries() ensures EntryAt(r, g, i) == if i == c then x % TWO_28 else EntryAt(d, g, i) { FatEntry(d, g, c, x, i); }
  }

  lemma FatTable(d: seq<byte>, g: Geometry, c: nat, x: nat)
    requires c < g.Entries() && Fits(d, g)
    ensures Fits(WriteFat(d, g, c, x), g) && View(WriteFat(d, g, c, x), g).table == SetNext(View(d, g).table, c, x)
  {
    hide WriteFat, EntryAt, ClusterOf;
    FatEntries(d, g, c, x);
  }

  lemma FatClusters(d: seq<byte>, g: Geometry, c: nat, x: nat)
    requires c < g.Entries() && Fits(d, g)
    ensures Fits(WriteFat(d, g, c, x), g) && View(WriteFat(d, g, c, x), g).clusters == View(d, g).clusters
  {
    var r := WriteFat(d, g, c, x);
    hide WriteFat, EntryAt, ClusterOf;
    forall k | 2 <= k < g.count + 2 ensures ClusterOf(r, g, k) == ClusterOf(d, g, k) { FatCluster(d, g, c, x, k); }
    assert View(r, g).clusters == View(d, g).clusters;
  }

  /** WRITE_FAT changes one entry, in its low 28 bits, in both copies, and nothing else. */
  lemma WriteFatView(d: seq<byte>, g: Geometry, c: nat, x: nat)
    requires c < g.Entries() && Fits(d, g)
    ensures Fits(WriteFat(d, g, c, x), g) && g.Fat1() + 4 * c + 4 <= |d|
    ensures View(WriteFat(d, g, c, x), g) == View(d, g).(table := SetNext(View(d, g).table, c, x))
    ensures Get32(WriteFat(d, g, c, x), g.Fat1() + 4 * c) / TWO_28 == Get32(d, g.Fat1() + 4 * c) / TWO_28
    ensures Mirrored(d, g) ==> Mirrored(WriteFat(d, g, c, x), g)
  {
    hide WriteFat, Get32, Mirrored, View;
    FatEntry(d, g, c, x, c);
    if Mirrored(d, g) { FatMirrored(d, g, c, x); }
    FatTable(d, g, c, x);
    FatClusters(d, g, c, x);
  }

  // ----- data clusters and the search -----

  lemma ClustersApart(g: Geometry, c: nat, k: nat)
    requires 2 <= c < g.count + 2 && 2 <= k < g.count + 2 && c != k
    ensures g.ClusterAt(c) + g.BytesPerClus() <= g.ClusterAt(k) || g.ClusterAt(k) + g.BytesPerClus() <= g.ClusterAt(c)
  {
    if c < k { Multiples(c - 2, k - 2, g.BytesPerClus()); } else { Multiples(k - 2, c - 2, g.BytesPerClus()); }
  }

  lemma EntryOutside(d: seq<byte>, e: seq<byte>, g: Geometry, i: nat)
    requires i < g.Entries() && Fits(d, g) && Fits(e, g) && d[..g.Data()] == e[..g.Data()]
    ensures EntryAt(e, g, i) == EntryAt(d, g, i)
  {
  }

  lemma ClusterOutside(d: seq<byte>, g: Geometry, c: nat, y: seq<byte>, k: nat)
    requires 2 <= c < g.count + 2 && 2 <= k < g.count + 2 && |y| == g.BytesPerClus() && Fits(d, g)
    ensures g.ClusterAt(c) + |y| <= |d|
    ensures ClusterOf(Patch(d, g.ClusterAt(c), y), g, k) == if k == c then y else ClusterOf(d, g, k)
  {
    ClusterRange(g, c);
    ClusterRange(g, k);
    hide Patch;
    if k != c { ClustersApart(g, c, k); }
    PatchSlice(d, g.ClusterAt(c), y, g.ClusterAt(k), g.ClusterAt(k) + |y|);
  }

  lemma PatchSlice(d: seq<byte>, at: nat, x: seq<byte>, lo: nat, hi: nat)
    requires at + |x| <= |d| && lo <= hi <= |d|
    ensures |Patch(d, at, x)| == |d|
    ensures hi <= at || at + |x| <= lo ==> Patch(d, at, x)[lo..hi] == d[lo..hi]
    ensures lo == at && hi == at + |x| ==> Patch(d, at, x)[lo..hi] == x
  {
    hide Patch;
    PatchAt(d, at, x);
    var r := Patch(d, at, x);
    if hi <= at || at + |x| <= lo {
      SameSlice(d, r, lo, hi);
    } else if lo == at && hi == at + |x| {
      assert |r[lo..hi]| == |x|;
      forall k | 0 <= k < |x| ensures r[lo..hi][k] == x[k] { assert r[lo..hi][k] == r[at + k]; }
      assert r[lo..hi] == x;
    }
  }

  /** Every byte after a patch. */
  lemma PatchAt(d: seq<byte>, at: nat, x: seq<byte>)
    requires at + |x| <= |d|
    ensures |Patch(d, at, x)| == |d|
    ensures forall i | 0 <= i < |d| :: Patch(d, at, x)[i] == if at <= i < at + |x| then x[i - at] else d[i]
  {
  }

  lemma SameSlice(d: seq<byte>, r: seq<byte>, lo: nat, hi: nat)
    requires |r| == |d| && lo <= hi <= |d| && forall i | lo <= i < hi :: r[i] == d[i]
    ensures r[lo..hi] == d[lo..hi]
  {
  }

  lemma PrefixSlice(d: seq<byte>, r: seq<byte>, n: nat, lo: nat, hi: nat)
    requires |r| == |d| && lo <= hi <= n <= |d| && r[..n] == d[..n]
    ensures r[lo..hi] == d[lo..hi]
  {
    forall i | lo <= i < hi ensures r[i] == d[i] { assert r[..n][i] == d[..n][i]; }
    SameSlice(d, r, lo, hi);
  }

  /** Writing a data cluster. */
  lemma WriteClusterView(d: seq<byte>, g: Geometry, c: nat, y: seq<byte>)
    requires 2 <= c < g.count + 2 && |y| == g.BytesPerClus() && Fits(d, g)
    ensures g.ClusterAt(c) + |y| <= |d|
    ensures var r, v := Patch(d, g.ClusterAt(c), y), View(d, g);
      Fits(r, g) && View(r, g) == v.(clusters := v.clusters[c - 2 := y]) && (Mirrored(d, g) ==> Mirrored(r, g))
  {
    hide Patch, EntryAt, ClusterOf;
    ClusterRange(g, c);
    var r, v := Patch(d, g.ClusterAt(c), y), View(d, g);
    FatOrder(g);
    PatchSlice(d, g.ClusterAt(c), y, 0, g.Data());
    assert r[..g.Data()] == d[..g.Data()];
    PrefixSlice(d, r, g.Data(), g.Fat1(), g.Fat2());
    PrefixSlice(d, r, g.Data(), g.Fat2(), g.Data());
    forall i | 0 <= i < g.Entries() ensures EntryAt(r, g, i) == EntryAt(d, g, i) { EntryOutside(d, r, g, i); }
    forall k | 2 <= k < g.count + 2 ensures ClusterOf(r, g, k) == if k == c then y else ClusterOf(d, g, k) { ClusterOutside(d, g, c, y, k); }
    assert View(r, g).table == v.table;
    assert View(r, g).clusters == v.clusters[c - 2 := y];
  }

  lemma FatOrder(g: Geometry)
    ensures g.Fat1() <= g.Fat2() <= g.Data()
  {
  }

  /** Zeros over the first sector of the first copy. */
  lemma WipeView(d: seq<byte>, g: Geometry)
    requires Fits(d, g)
    ensures g.Fat1() + SECTOR <= |d|
    ensures var r, v := Patch(d, g.Fat1(), seq(SECTOR, _ => 0)), View(d, g);
      Fits(r, g) && View(r, g) == v.(table := FindAvailable(v.table, WriteDma).1)
  {
    var r, v := Patch(d, g.Fat1(), seq(SECTOR, _ => 0)), View(d, g);
    forall i | 0 <= i < g.Entries() ensures EntryAt(r, g, i) == if i < 128 then 0 else EntryAt(d, g, i) {
      EntryPlace(g, i);
      var at := g.Fat1() + 4 * i;
      if i >= 128 {
        assert r[at..at + 4] == d[at..at + 4];
        GetSame(d, r, at, at);
      }
    }
    assert View(r, g).table == FindAvailable(v.table, WriteDma).1;
    forall k | 2 <= k < g.count + 2 ensures ClusterOf(r, g, k) == ClusterOf(d, g, k) { ClusterRange(g, k); }
    assert View(r, g).clusters == v.clusters;
  }

  /** An entry in the buffer of its sector. */
  lemma BufferEntry(d: seq<byte>, g: Geometry, c: nat)
    requires c < g.Entries() && Fits(d, g)
    ensures PlaceOf(c) + 4 <= SECTOR && g.Fat1() + SectorOf(c) + SECTOR <= |d|
    ensures Get32(d[g.Fat1() + SectorOf(c)..g.Fat1() + SectorOf(c) + SECTOR], PlaceOf(c)) % TWO_28 == View(d, g).table[c]
  {
  }

  /** The next cluster of a write: the one in the table, or a free one linked in, if there is one. */
  function NextOrNew(t: seq<nat>, c: nat, cmd: Command): (r: (Option<nat>, seq<nat>))
  {
    if Next(t, c) < END then (Some(Next(t, c)), t)
    else
      var (found, t1) := FindAvailable(t, cmd);
      if found == 0 then (None, t1) else (Some(found), SetNext(SetNext(t1, c, found), found, END))
  }

  function PieceLength(b: nat, offset: nat, n: nat): (r: nat)
    requires offset < b
    ensures r <= n && (n > 0 ==> r > 0)
  {
    if b - offset < n then b - offset else n
  }

  function PiecePlace(b: nat, offset: nat, n: nat): (r: nat)
    requires offset < b
    ensures r < b && r + PieceLength(b, offset, n) <= b && (PieceLength(b, offset, n) < n ==> r == 0)
  {
    if b - offset < n then 0 else offset
  }

  /** The volume with one piece written. */
  function PieceVolume(v: Volume, b: nat, c: nat, offset: nat, x: seq<byte>): (r: Volume)
    requires offset < b && Inside(v, c) && |v.clusters[c - 2]| == b
  {
    v.(clusters := v.clusters[c - 2 :=
      Patch(v.clusters[c - 2], PiecePlace(b, offset, |x|), x[..PieceLength(b, offset, |x|)])])
  }

  lemma Sizes(d: seq<byte>, g: Geometry)
    requires Fits(d, g)
    ensures |View(d, g).clusters| == g.count
    ensures forall i | 0 <= i < g.count :: |View(d, g).clusters[i]| == g.BytesPerClus()
  {
  }

  /** One turn of the writing loop. */
  lemma WriteTurn(v: Volume, b: nat, c: nat, offset: nat, x: seq<byte>, cmd: Command)
    requires offset < b && x != [] && Inside(v, c) && |v.clusters[c - 2]| == b
    ensures var v1, n := PieceVolume(v, b, c, offset, x), PieceLength(b, offset, |x|);
      WriteLoop(v, b, c, offset, x, cmd) ==
        if n == |x| then WroteTo(v1, 0)
        else
          var (r, t) := NextOrNew(v1.table, c, cmd);
          match r
          case None => WroteTo(v1.(table := t), |x| - n)
          case Some(next) => WriteLoop(v1.(table := t), b, next, 0, x[n..], cmd)
  {
  }

  lemma WriteLeaves(v: Volume, b: nat, c: nat, offset: nat, x: seq<byte>, cmd: Command)
    requires offset < b && x != [] && !Inside(v, c)
    ensures WriteLoop(v, b, c, offset, x, cmd) == WriteOutside
  {
  }

  lemma WriteStops(v: Volume, b: nat, c: nat, offset: nat, cmd: Command)
    requires offset < b
    ensures WriteLoop(v, b, c, offset, [], cmd) == WroteTo(v, 0)
  {
  }

  lemma Nothing(r: ReadRes)
    ensures Prepended(r, [], r)
  {
  }

  /** One turn of the reading loop: the place in the cluster, the length, what is left. */
  function OffsetAfter(b: nat, left: nat, offset: nat): (r: nat)
    requires offset < b
    ensures r < b
  {
    if left > b - offset then 0 else offset
  }

  function LengthOf(b: nat, left: nat, offset: nat): (r: nat)
    requires offset < b
    ensures OffsetAfter(b, left, offset) + r <= b
  {
    if left > b - offset then b else left
  }

  function LeftAfter(b: nat, left: nat, offset: nat): (r: nat)
    requires offset < b <= TWO_64
  {
    var length := LengthOf(b, left, offset);
    if length <= left then left - length else left - length + TWO_64
  }

  /** The offset is forgotten at most once. */
  function Rank(offset: nat): (r: nat) { if offset == 0 then 0 else 1 }

  lemma TurnsEnd(b: nat, left: nat, offset: nat)
    requires offset < b <= TWO_64 && left > 0
    ensures var rank := Rank(OffsetAfter(b, left, offset));
      rank < Rank(offset) || (rank == Rank(offset) && LeftAfter(b, left, offset) < left)
  {
  }

  lemma ReadStep(v: Volume, b: nat, c: nat, last: nat, left: nat, offset: nat, r: ReadRes, data: seq<byte>)
    requires offset < b <= TWO_64 && left > 0 && last < BAD && Inside(v, c) && |v.clusters[c - 2]| == b
    requires Prepended(r, data, ReadLoop(v, b, c, last, left, offset))
    ensures var at := OffsetAfter(b, left, offset);
      Prepended(r, data + v.clusters[c - 2][at..at + LengthOf(b, left, offset)],
                ReadLoop(v, b, Next(v.table, c), c, LeftAfter(b, left, offset), at))
  {
  }

  lemma ReadStops(v: Volume, b: nat, c: nat, last: nat, left: nat, offset: nat, r: ReadRes, data: seq<byte>)
    requires offset < b <= TWO_64 && (left == 0 || last >= BAD) && Prepended(r, data, ReadLoop(v, b, c, last, left, offset))
    ensures r == ReadTo(data, left)
  {
  }

  lemma ReadLeaves(v: Volume, b: nat, c: nat, last: nat, left: nat, offset: nat, r: ReadRes, data: seq<byte>)
    requires offset < b <= TWO_64 && left > 0 && last < BAD && !Inside(v, c)
    requires Prepended(r, data, ReadLoop(v, b, c, last, left, offset))
    ensures r == ReadOutside
  {
  }

  /** r is `rest` behind the bytes read so far. */
  predicate Prepended(r: ReadRes, data: seq<byte>, rest: ReadRes)
  {
    match rest
    case ReadOutside => r == ReadOutside
    case ReadTo(more, left) => r == ReadTo(data + more, left)
  }

  lemma ScanEntry(d: seq<byte>, g: Geometry, i: nat, j: nat)
    requires i < g.spf && j < 128 && Fits(d, g)
    ensures g.Fat1() + i * SECTOR + SECTOR <= |d| && i * 128 + 128 <= |View(d, g).table|
    ensures Get32(d[g.Fat1() + i * SECTOR..g.Fat1() + i * SECTOR + SECTOR], 4 * j) % TWO_28 == View(d, g).table[i * 128 + j]
  {
  }

  lemma NotFree(t: seq<nat>, i: nat)
    requires i < |t| && t[i] != 0
    ensures FirstFree(t, i) == FirstFree(t, i + 1)
  {
  }

  lemma Free(t: seq<nat>, i: nat)
    requires i == |t| || (i < |t| && t[i] == 0)
    ensures FirstFree(t, i) == i
  {
  }

  lemma TableLength(d: seq<byte>, g: Geometry)
    requires Fits(d, g)
    ensures |View(d, g).table| == 128 * g.spf
  {
  }

  lemma SectorInside(g: Geometry, i: nat)
    requires i < g.spf
    ensures g.Fat1() + i * SECTOR + SECTOR <= g.Fat2() <= g.Data() && i * 128 + 128 <= g.Entries()
  {
  }

  // ----- the driver -----

  class Driver {
    const g: Geometry
    /** The medium. */
    var disk: seq<byte>

    constructor (g: Geometry, disk: seq<byte>)
      requires Fits(disk, g)
      ensures Valid() && this.g == g && this.disk == disk
    {
      this.g, this.disk := g, disk;
    }

    predicate Valid()
      reads this
    {
      Fits(disk, g)
    }

    ghost function Vol(): Volume
      reads this
      requires Valid()
    {
      View(disk, g)
    }

    /** Read_FAT */
    method ReadFat(c: nat) returns (x: nat)
      requires Valid()
      ensures x == Next(Vol().table, c)
    {
      if c >= g.Entries() { return END; }
      BufferEntry(disk, g, c);
      hide Get32;
      var buf := disk[g.Fat1() + SectorOf(c)..g.Fat1() + SectorOf(c) + SECTOR];
      x := Get32(buf, PlaceOf(c)) % TWO_28;
    }

    /** WRITE_FAT */
    method WriteFatEntry(c: nat, x: nat)
      requires Valid()
      modifies this
      ensures Valid() && Vol() == old(Vol()).(table := SetNext(old(Vol()).table, c, x))
      ensures Mirrored(old(disk), g) ==> Mirrored(disk, g)
    {
      if c >= g.Entries() { return; }
      WriteFatView(disk, g, c, x);
      EntryPlace(g, c);
      hide Get32, Put32, Merged, View, Mirrored;
      var at := g.Fat1() + SectorOf(c);
      var buf := disk[at..at + SECTOR];
      buf := Patch(buf, PlaceOf(c), Put32(Merged(Get32(buf, PlaceOf(c)), x)));
      disk := Patch(disk, at, buf);
      disk := Patch(disk, g.Fat2() + SectorOf(c), buf);
    }

    /** The inner loop of the search: the first free entry of sector i, or 128. */
    method ScanSector(buf: seq<byte>, i: nat) returns (j: nat)
      requires Valid() && i < g.spf && g.Fat1() + i * SECTOR + SECTOR <= |disk|
      requires buf == disk[g.Fat1() + i * SECTOR..g.Fat1() + i * SECTOR + SECTOR]
      ensures j <= 128 && i * 128 + 128 <= |Vol().table|
      ensures FirstFree(Vol().table, i * 128) == FirstFree(Vol().table, i * 128 + j)
      ensures j < 128 ==> Vol().table[i * 128 + j] == 0
    {
      hide Get32, FirstFree, EntryAt, ClusterOf, View;
      ghost var t := Vol().table;
      ScanEntry(disk, g, i, 0);
      j := 0;
      while j < 128
        invariant 0 <= j <= 128
        invariant FirstFree(t, i * 128) == FirstFree(t, i * 128 + j)
      {
        ScanEntry(disk, g, i, j);
        if Get32(buf, 4 * j) % TWO_28 == 0 { return; }
        NotFree(t, i * 128 + j);
        j := j + 1;
      }
    }

    /** The disk command of the search for sector i of the table, with a zeroed buffer. */
    method Transfer(i: nat, cmd: Command) returns (buf: seq<byte>)
      requires Valid() && i < g.spf
      modifies this
      ensures Valid() && g.Fat1() + i * SECTOR + SECTOR <= |disk|
      ensures cmd == ReadDma ==> disk == old(disk) && buf == disk[g.Fat1() + i * SECTOR..g.Fat1() + i * SECTOR + SECTOR]
      ensures cmd == WriteDma ==>
        && buf == seq(SECTOR, _ => 0)
        && (i == 0 ==> Vol() == old(Vol()).(table := FindAvailable(old(Vol()).table, WriteDma).1))
    {
      hide EntryAt, ClusterOf, FindAvailable;
      SectorInside(g, i);
      buf := seq(SECTOR, _ => 0);
      match cmd {
        case WriteDma =>
          WipeView(disk, g);
          disk := Patch(disk, g.Fat1() + i * SECTOR, buf);
        case ReadDma =>
          buf := disk[g.Fat1() + i * SECTOR..g.Fat1() + i * SECTOR + SECTOR];
      }
    }

    /** FAT32_find_available_cluster */
    method FindCluster(cmd: Command) returns (c: nat)
      requires Valid()
      modifies this
      ensures Valid() && (c, Vol().table) == FindAvailable(old(Vol()).table, cmd) && Vol().clusters == old(Vol()).clusters
      ensures cmd == ReadDma ==> disk == old(disk)
    {
      hide FirstFree, View;
      var i := 0;
      ghost var t := Vol().table;
      TableLength(disk, g);
      while i < g.spf
        invariant 0 <= i <= g.spf && disk == old(disk) && Valid()
        invariant cmd == WriteDma ==> i == 0
        invariant FirstFree(t, 0) == FirstFree(t, i * 128)
      {
        var buf := Transfer(i, cmd);
        if cmd == WriteDma { return 0; }
        var j := ScanSector(buf, i);
        if j < 128 {
          Free(t, i * 128 + j);
          return i * 128 + j;
        }
        i := i + 1;
      }
      Free(t, |t|);
      return 0;
    }

    /** The loop that follows the chain. */
    method FollowTo(first: nat, n: nat) returns (c: nat)
      requires Valid()
      ensures c == Follow(Vol().table, first, n)
    {
      c := first;
      var i := 0;
      hide View;
      while i < n
        invariant 0 <= i <= n && Follow(Vol().table, first, n) == Follow(Vol().table, c, n - i)
      {
        if c < BAD { c := ReadFat(c); }
        i := i + 1;
      }
    }

    /** One cluster of the data area. */
    method ReadCluster(c: nat) returns (buf: seq<byte>)
      requires Valid() && 2 <= c < g.count + 2
      ensures |Vol().clusters| == g.count && buf == Vol().clusters[c - 2] && |buf| == g.BytesPerClus()
    {
      ClusterRange(g, c);
      buf := disk[g.ClusterAt(c)..g.ClusterAt(c) + g.BytesPerClus()];
    }

    method WriteCluster(c: nat, buf: seq<byte>)
      requires Valid() && 2 <= c < g.count + 2 && |buf| == g.BytesPerClus()
      modifies this
      ensures Valid() && |old(Vol()).clusters| == g.count
      ensures Vol() == old(Vol()).(clusters := old(Vol()).clusters[c - 2 := buf])
      ensures Mirrored(old(disk), g) ==> Mirrored(disk, g)
    {
      WriteClusterView(disk, g, c, buf);
      disk := Patch(disk, g.ClusterAt(c), buf);
    }

    /** FAT32_read; ok is false if it asks for a cluster outside the volume. */
    method ReadFile(f: File, n: nat) returns (ok: bool, ret: int, f1: File, data: seq<byte>)
      requires Valid() && g.BytesPerClus() <= MAX_CLUSTER
      ensures g.BytesPerClus() > 0
      ensures match Read(Vol(), g.BytesPerClus(), f, n)
        case ReadFails => !ok
        case ReadReturns(ret', f', data') => ok && ret == ret' && f1 == f' && data == data'
    {
      var b := g.BytesPerClus();
      assert b > 0;
      ok, ret, f1, data := true, EFAULT, f, [];
      if f.first == 0 { return; }
      var c := FollowTo(f.first, Index(f.pos, b));
      var left, data1;
      ok, left, data1 := ReadLoopFrom(c, Cut(f, n), Offset(f.pos, b));
      hide View;
      data := data1;
      f1 := f.(pos := f.pos + |data|);
      ret := if left == 0 then Cut(f, n) else EIO;
    }

    /** The bytes of one cluster, and what is left then. */
    method ReadPiece(c: nat, left: nat, offset: nat) returns (x: seq<byte>, left1: nat, offset1: nat)
      requires Valid() && g.BytesPerClus() <= MAX_CLUSTER && offset < g.BytesPerClus() && 2 <= c < g.count + 2
      ensures |Vol().clusters| == g.count && |Vol().clusters[c - 2]| == g.BytesPerClus()
      ensures var b := g.BytesPerClus();
        && offset1 == OffsetAfter(b, left, offset) && left1 == LeftAfter(b, left, offset)
        && x == Vol().clusters[c - 2][offset1..offset1 + LengthOf(b, left, offset)]
    {
      var b := g.BytesPerClus();
      var buffer := ReadCluster(c);
      hide View;
      offset1 := offset;
      var length: nat;
      if left > b - offset {
        offset1 := 0;
        length := b - offset1;
      } else {
        length := left;
      }
      x := buffer[offset1..offset1 + length];
      left1 := if length <= left then left - length else left - length + TWO_64;
    }

    /** One turn of the loop of FAT32_read. */
    method ReadTurn(c: nat, left: nat, offset: nat, ghost last: nat, ghost all: ReadRes, ghost data: seq<byte>)
      returns (x: seq<byte>, c1: nat, left1: nat, offset1: nat)
      requires Valid() && g.BytesPerClus() <= MAX_CLUSTER && offset < g.BytesPerClus() && 2 <= c < g.count + 2
      requires left > 0 && last < BAD && Prepended(all, data, ReadLoop(Vol(), g.BytesPerClus(), c, last, left, offset))
      ensures offset1 < g.BytesPerClus()
      ensures Prepended(all, data + x, ReadLoop(Vol(), g.BytesPerClus(), c1, c, left1, offset1))
      ensures Rank(offset1) < Rank(offset) || (Rank(offset1) == Rank(offset) && left1 < left)
    {
      hide View, ReadLoop, Next, Prepended, OffsetAfter, LengthOf, LeftAfter, Rank;
      Sizes(disk, g);
      ReadStep(Vol(), g.BytesPerClus(), c, last, left, offset, all, data);
      TurnsEnd(g.BytesPerClus(), left, offset);
      x, left1, offset1 := ReadPiece(c, left, offset);
      c1 := ReadFat(c);
    }

    method ReadLoopFrom(c0: nat, n: nat, offset0: nat) returns (ok: bool, left: nat, data: seq<byte>)
      requires Valid() && g.BytesPerClus() <= MAX_CLUSTER && offset0 < g.BytesPerClus()
      ensures match ReadLoop(Vol(), g.BytesPerClus(), c0, 0, n, offset0)
        case ReadOutside => !ok
        case ReadTo(data', left') => ok && data == data' && left == left'
    {
      var c: nat, last: nat, offset: nat := c0, 0, offset0;
      ghost var all := ReadLoop(Vol(), g.BytesPerClus(), c0, 0, n, offset0);
      Sizes(disk, g);
      hide View, ReadLoop, Prepended, Rank;
      left, data := n, [];
      Nothing(all);
      while left > 0 && last < BAD
        invariant offset < g.BytesPerClus() && Prepended(all, data, ReadLoop(Vol(), g.BytesPerClus(), c, last, left, offset))
        decreases Rank(offset), left
      {
        if !(2 <= c < g.count + 2) {
          ReadLeaves(Vol(), g.BytesPerClus(), c, last, left, offset, all, data);
          return false, left, data;
        }
        var x: seq<byte>, was: nat := [], c;
        x, c, left, offset := ReadTurn(c, left, offset, last, all, data);
        data := data + x;
        last := was;
      }
      ReadStops(Vol(), g.BytesPerClus(), c, last, left, offset, all, data);
      return true, left, data;
    }

    /** FAT32_write; ok is false if it asks for a cluster outside the volume. For a file without
        clusters the record in the directory is not part of this model. */
    method WriteFile(f: File, buf: seq<byte>, cmd: Command) returns (ok: bool, ret: int, f1: File)
      requires Valid()
      modifies this
      ensures Valid() && g.BytesPerClus() > 0
      ensures match Write(old(Vol()), g.BytesPerClus(), f, buf, cmd)
        case WriteFails => !ok
        case WriteReturns(ret', f', v') => ok && ret == ret' && f1 == f' && Vol() == v'
      ensures cmd == ReadDma && Mirrored(old(disk), g) ==> Mirrored(disk, g)
    {
      var b := g.BytesPerClus();
      assert b > 0;
      hide View, Mirrored, WriteLoop, FindAvailable, SetNext, Follow;
      ok, ret, f1 := true, EFAULT, f;
      if f.first == 0 {
        var c := FindCluster(cmd);
        f1 := f.(first := c);
        WriteFatEntry(c, END);
        return;
      }
      var c := FollowTo(f.first, Index(f.pos, b));
      var left;
      ok, left := WriteLoopFrom(c, Offset(f.pos, b), buf, cmd);
      if ok {
        f1 := f.(pos := f.pos + |buf| - left);
        if left > 0 { ret := -ENOSPC; return; }
        if f1.pos > f.size { f1 := f1.(size := f1.pos); }
        ret := |buf|;
      }
    }

    /** The cluster after c, or a new one linked behind it. */
    method NextCluster(c: nat, cmd: Command) returns (r: Option<nat>)
      requires Valid()
      modifies this
      ensures Valid() && Vol().clusters == old(Vol()).clusters
      ensures (r, Vol().table) == NextOrNew(old(Vol()).table, c, cmd)
      ensures cmd == ReadDma && Mirrored(old(disk), g) ==> Mirrored(disk, g)
    {
      hide View, Mirrored, FindAvailable, SetNext, Next;
      var next := ReadFat(c);
      if next >= END {
        next := FindCluster(cmd);
        if next == 0 { return None; }
        WriteFatEntry(c, next);
        WriteFatEntry(next, END);
      }
      return Some(next);
    }

    /** One cluster read, changed and written back. */
    method WritePiece(c: nat, offset: nat, x: seq<byte>) returns (length: nat, offset1: nat)
      requires Valid() && offset < g.BytesPerClus() && 2 <= c < g.count + 2
      modifies this
      ensures Valid() && |old(Vol()).clusters| == g.count && |old(Vol()).clusters[c - 2]| == g.BytesPerClus()
      ensures length == PieceLength(g.BytesPerClus(), offset, |x|) && offset1 == PiecePlace(g.BytesPerClus(), offset, |x|)
      ensures Vol() == PieceVolume(old(Vol()), g.BytesPerClus(), c, offset, x)
      ensures Mirrored(old(disk), g) ==> Mirrored(disk, g)
    {
      var b := g.BytesPerClus();
      hide View, Mirrored;
      var buffer := ReadCluster(c);
      offset1 := offset;
      if b - offset < |x| {
        length := b - offset;
        offset1 := 0;
      } else {
        length := |x|;
      }
      WriteCluster(c, Patch(buffer, offset1, x[..length]));
    }

    method WriteLoopFrom(c0: nat, offset0: nat, buf: seq<byte>, cmd: Command) returns (ok: bool, left: nat)
      requires Valid() && offset0 < g.BytesPerClus()
      modifies this
      ensures Valid()
      ensures match WriteLoop(old(Vol()), g.BytesPerClus(), c0, offset0, buf, cmd)
        case WriteOutside => !ok
        case WroteTo(v', left') => ok && Vol() == v' && left == left'
      ensures cmd == ReadDma && Mirrored(old(disk), g) ==> Mirrored(disk, g)
    {
      var b := g.BytesPerClus();
      var c: nat, offset: nat, x := c0, offset0, buf;
      ghost var all := WriteLoop(Vol(), b, c0, offset0, buf, cmd);
      hide View, Mirrored, WriteLoop, NextOrNew, PieceVolume, PieceLength, PiecePlace;
      while x != []
        invariant Valid() && offset < b && all == WriteLoop(Vol(), b, c, offset, x, cmd)
        invariant cmd == ReadDma && Mirrored(old(disk), g) ==> Mirrored(disk, g)
        decreases |x|
      {
        Sizes(disk, g);
        if !(2 <= c < g.count + 2) {
          WriteLeaves(Vol(), b, c, offset, x, cmd);
          return false, 0;
        }
        ghost var v, was := Vol(), offset;
        var length;
        length, offset := WritePiece(c, offset, x);
        WriteTurn(v, b, c, was, x, cmd);
        x := x[length..];
        if x == [] { return true, 0; }
        var next := NextCluster(c, cmd);
        match next {
          case None => return true, |x|;
          case Some(n) => c := n;
        }
      }
      WriteStops(Vol(), b, c, offset, cmd);
      return true, 0;
    }
  }
}
