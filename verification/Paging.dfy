/** The four-level page tables with 2 MB leaves (Kernel/Mem.c: pagetable_init, pagetable_clear,
    Virt_To_Phy), as functions of the memory. Tables are 4 KB blocks that kmalloc hands out. */
module Paging {
  import opened Words
  import opened Frames
  import opened Slabs
  import opened SlabOwnership

  const PAGE_4K: nat := 4096

  /** The flag bits of an entry that the kernel knows. */
  datatype Flag = P | RW | US | PWT | PCD | A | D | PS | G

  /** A table entry: the address in the bits from 12 up, and the flags that are set. */
  datatype Entry = Entry(base: nat, flags: set<Flag>)

  const EMPTY: Entry := Entry(0, {})

  type Table = seq<Entry>

  /** The flag words of pg_attr for the three levels. */
  datatype Attr = Attr(pml4e: set<Flag>, pdpte: set<Flag>, pde: set<Flag>)

  /** The allocator, and the contents of the page tables by physical address. */
  datatype Memory = Memory(m: Mem, pt: map<nat, Table>)

  // ----- addresses -----

  /** The three table indices of a virtual address. */
  datatype Slot = Slot(a: nat, b: nat, c: nat)

  function SlotOf(v: nat): (r: Slot)
    ensures r.a < 512 && r.b < 512 && r.c < 512
  {
    Slot(v / 0x80_0000_0000 % 512, v / 0x4000_0000 % 512, v / PAGE_2M % 512)
  }

  /** The 48-bit page number. */
  function PageNo(v: nat): (r: nat)
  {
    v / PAGE_2M % 0x800_0000
  }

  /** The 9/9/9 split is injective on page numbers. */
  lemma SlotsInjective(v: nat, w: nat)
    ensures SlotOf(v) == SlotOf(w) <==> PageNo(v) == PageNo(w)
  {
    SlotsOfPage(v);
    SlotsOfPage(w);
  }

  lemma SlotsOfPage(v: nat)
    ensures SlotOf(v) == Slot(PageNo(v) / 0x4_0000, PageNo(v) / 512 % 512, PageNo(v) % 512)
    ensures PageNo(v) == SlotOf(v).a * 0x4_0000 + SlotOf(v).b * 512 + SlotOf(v).c
  {
    var q := v / PAGE_2M;
    DivideTwice(v);
    var k, n := q / 0x800_0000, PageNo(v);
    assert q == k * 0x800_0000 + n;
    Digits(k, n);
  }

  lemma DivideTwice(v: nat)
    ensures v / 0x4000_0000 == v / PAGE_2M / 512
    ensures v / 0x80_0000_0000 == v / PAGE_2M / 0x4_0000
  {
  }

  /** The three base-512 digits of a page number, with or without multiples of 2^27 on top. */
  lemma Digits(k: nat, n: nat)
    requires n < 0x800_0000
    ensures var q := k * 0x800_0000 + n;
      && q % 512 == n % 512 && q / 512 % 512 == n / 512 % 512 && q / 0x4_0000 % 512 == n / 0x4_0000
    ensures n == n / 0x4_0000 * 0x4_0000 + n / 512 % 512 * 512 + n % 512
  {
    var x := n / 512;
    assert x / 512 == n / 0x4_0000;
    assert (k * 0x800_0000 + n) / 512 == k * 0x4_0000 + x;
    assert (k * 0x800_0000 + n) / 0x4_0000 == k * 512 + n / 0x4_0000;
  }

  /** Pages of one range of at most 2^27 pages never share a slot. */
  lemma RangeSlotsDiffer(virt: nat, i: nat, j: nat)
    requires virt % PAGE_2M == 0 && i < j < i + 0x800_0000
    ensures SlotOf(virt + i * PAGE_2M) != SlotOf(virt + j * PAGE_2M)
  {
    hide SlotOf;
    SlotsInjective(virt + i * PAGE_2M, virt + j * PAGE_2M);
    PageShift(virt, i);
    PageShift(virt, j);
    NotCongruent(virt / PAGE_2M + i, virt / PAGE_2M + j);
  }

  lemma PageShift(virt: nat, i: nat)
    ensures (virt + i * PAGE_2M) / PAGE_2M == virt / PAGE_2M + i
  {
  }

  lemma NotCongruent(a: nat, b: nat)
    requires a < b < a + 0x800_0000
    ensures a % 0x800_0000 != b % 0x800_0000
  {
  }

  // ----- reading -----

  function Lookup(pt: map<nat, Table>, t: nat, pos: nat): (r: Entry)
  {
    if t in pt && pos < |pt[t]| then pt[t][pos] else EMPTY
  }

  /** The leaf entry for a slot, if every level on the way has an entry. */
  function Walk(pt: map<nat, Table>, root: nat, s: Slot): (r: Option<Entry>)
  {
    var e4 := Lookup(pt, root, s.a);
    var e3 := Lookup(pt, e4.base, s.b);
    var e2 := Lookup(pt, e3.base, s.c);
    if e4 == EMPTY || e3 == EMPTY || e2 == EMPTY then None else Some(e2)
  }

  /** Virt_To_Phy: no level is checked. */
  function VirtToPhy(pt: map<nat, Table>, root: nat, v: nat): (r: nat)
  {
    var base := v - v % PAGE_2M;
    var s := SlotOf(base);
    var e2 := Lookup(pt, Lookup(pt, Lookup(pt, root, s.a).base, s.b).base, s.c);
    e2.base - e2.base % PAGE_2M + v % PAGE_2M
  }

  // ----- writing -----

  /** Fault: kmalloc met the null page. Wild: an entry leads to memory that is no table. */
  datatype PtRes = PtFault | PtWild | PtOk(mem: Memory)

  /** A table after memset. */
  function NoEntries(): (r: Table)
    ensures |r| == 512 && forall p | 0 <= p < 512 :: r[p] == EMPTY
  {
    seq(512, _ => EMPTY)
  }

  function SetEntry(pt: map<nat, Table>, t: nat, pos: nat, e: Entry): (r: map<nat, Table>)
  {
    if t in pt && pos < |pt[t]| then pt[t := pt[t][pos := e]] else pt
  }

  /** Make sure that entry pos of table t leads to a table, then or the flags in. */
  function Ensure(s: Memory, t: nat, pos: nat, flags: set<Flag>): (r: PtRes)
    requires |s.m.caches| == CLASSES && |s.m.fr.refs| == s.m.fr.NoPage()
  {
    if t !in s.pt || pos >= |s.pt[t]| then PtWild
    else
      var e := s.pt[t][pos];
      if e != EMPTY then PtOk(s.(pt := SetEntry(s.pt, t, pos, e.(flags := e.flags + flags))))
      else match Kmalloc(s.m, PAGE_4K)
        case Got(m, a) =>
          if a < PAGE_OFFSET then PtWild
          else PtOk(Memory(m, SetEntry(s.pt[a - PAGE_OFFSET := NoEntries()], t, pos, Entry(a - PAGE_OFFSET, flags))))
        case _ => PtFault
  }

  /** One round of pagetable_init. */
  function MapPage(s: Memory, root: nat, v: nat, phys: nat, attr: Attr): (r: PtRes)
    requires |s.m.caches| == CLASSES && |s.m.fr.refs| == s.m.fr.NoPage()
  {
    var x := SlotOf(v);
    match Ensure(s, root, x.a, attr.pml4e)
    case PtOk(s1) =>
      if |s1.m.caches| != CLASSES || |s1.m.fr.refs| != s1.m.fr.NoPage() then PtWild
      else (match Ensure(s1, Lookup(s1.pt, root, x.a).base, x.b, attr.pdpte)
        case PtOk(s2) =>
          var t2 := Lookup(s2.pt, Lookup(s2.pt, root, x.a).base, x.b).base;
          PtOk(s2.(pt := SetEntry(s2.pt, t2, x.c, Entry(phys, attr.pde))))
        case r => r)
    case r => r
  }

  /** Rounds i to n of the loop. */
  function MapPages(s: Memory, root: nat, virt: nat, phys: nat, i: nat, n: nat, attr: Attr): (r: PtRes)
    requires |s.m.caches| == CLASSES && |s.m.fr.refs| == s.m.fr.NoPage()
    decreases n - i
  {
    if i >= n then PtOk(s)
    else match MapPage(s, root, virt + i * PAGE_2M, phys + i * PAGE_2M, attr)
      case PtOk(s1) =>
        if |s1.m.caches| != CLASSES || |s1.m.fr.refs| != s1.m.fr.NoPage() then PtWild
        else MapPages(s1, root, virt, phys, i + 1, n, attr)
      case r => r
  }

  /** One round of pagetable_clear: the address the leaf held, or None when a level is missing. */
  function ClearPage(pt: map<nat, Table>, root: nat, v: nat): (r: Option<(nat, map<nat, Table>)>)
  {
    var x := SlotOf(v);
    var e4 := Lookup(pt, root, x.a);
    var e3 := Lookup(pt, e4.base, x.b);
    if e4 == EMPTY || e3 == EMPTY then None
    else Some((Lookup(pt, e3.base, x.c).base, SetEntry(pt, e3.base, x.c, EMPTY)))
  }

  /** pagetable_clear: pages i to n of the range, until a level is missing; `last` is Phy_Base. */
  function ClearPages(pt: map<nat, Table>, root: nat, virt: nat, i: nat, n: nat, last: nat): (r: (nat, map<nat, Table>))
    decreases n - i
  {
    if i >= n then (last, pt)
    else match ClearPage(pt, root, virt + i * PAGE_2M)
      case None => (last, pt)
      case Some((phys, pt1)) => ClearPages(pt1, root, virt, i + 1, n, phys)
  }

  function PagetableClear(pt: map<nat, Table>, root: nat, virt: nat, n: nat): (r: (nat, map<nat, Table>))
  {
    if virt % PAGE_2M != 0 then (0, pt) else ClearPages(pt, root, virt, 0, n, 0)
  }

  // ----- the shape of the tables -----

  /** The tables of each level; a table belongs to one level only. */
  datatype Levels = Levels(l4: set<nat>, l3: set<nat>, l2: set<nat>)

  ghost predicate Sized(pt: map<nat, Table>, l: Levels)
  {
    && l.l4 !! l.l3 && l.l4 !! l.l2 && l.l3 !! l.l2
    && (forall t | t in l.l4 + l.l3 + l.l2 :: t in pt && |pt[t]| == 512)
  }

  /** Every entry leads to a table of the next level. */
  ghost predicate Linked(pt: map<nat, Table>, l: Levels)
  {
    && (forall t, p: nat | t in l.l4 && Lookup(pt, t, p) != EMPTY :: Lookup(pt, t, p).base in l.l3)
    && (forall t, p: nat | t in l.l3 && Lookup(pt, t, p) != EMPTY :: Lookup(pt, t, p).base in l.l2)
  }

  /** No table is reached twice, except that address spaces may share what hangs below an entry of
      the kernel half, under the same index. */
  ghost predicate Unshared(pt: map<nat, Table>, l: Levels)
  {
    && (forall t, u, p: nat, q: nat |
          t in l.l4 && u in l.l4 && Lookup(pt, t, p) != EMPTY && Lookup(pt, u, q) != EMPTY
          && Lookup(pt, t, p).base == Lookup(pt, u, q).base :: p == q && (t == u || p >= 256))
    && (forall t, u, p: nat, q: nat |
          t in l.l3 && u in l.l3 && Lookup(pt, t, p) != EMPTY && Lookup(pt, u, q) != EMPTY
          && Lookup(pt, t, p).base == Lookup(pt, u, q).base :: p == q && t == u)
  }

  ghost predicate Tree(pt: map<nat, Table>, l: Levels)
  {
    Sized(pt, l) && Linked(pt, l) && Unshared(pt, l)
  }

  /** Each table is a 4 KB block somebody holds, or lies below the frames the allocator manages. */
  ghost predicate Housed(s: Memory, o: Owners)
  {
    forall t | t in s.pt :: TableAt(s.m, o, t)
  }

  ghost predicate TableAt(m: Mem, o: Owners, t: nat)
  {
    || (t + PAGE_OFFSET in o.held && BlockOf(m, t + PAGE_OFFSET, 7))
    || (t % PAGE_4K == 0 && t + PAGE_4K <= o.base * PAGE_2M)
  }

  ghost predicate PagingInv(s: Memory, l: Levels, o: Owners)
  {
    Tree(s.pt, l) && Housed(s, o) && o.base >= 1 && Inv(s.m, o)
  }
}
