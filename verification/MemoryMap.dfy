/** The memory map handed to the kernel (MyPkg/BootX64/BootX64.c: Get_MemMap): neighbouring firmware
    descriptors of one type are joined, then the entries are sorted in place. */
module MemoryMap {
  import opened Words

  /** An EFI_MEMORY_DESCRIPTOR: type, first address, number of 4 KB pages. */
  datatype Efi = Efi(kind: nat, start: nat, pages: nat)

  datatype Entry = Entry(address: nat, length: nat, kind: nat)

  /** The E820 type of an EFI memory type; other types are skipped. */
  function MemType(kind: nat): (r: Option<nat>)
  {
    if kind == 0 || kind == 11 || kind == 12 || kind == 13 then Some(2)
    else if kind == 8 then Some(5)
    else if kind == 9 then Some(3)
    else if 1 <= kind <= 7 || kind == 14 then Some(1)
    else if kind == 10 then Some(4)
    else None
  }

  function Size(d: Efi): (r: nat) { d.pages * 4096 }

  /** One descriptor: it lengthens the last entry or makes a new one. */
  function Join(out: seq<Entry>, d: Efi): (r: seq<Entry>)
  {
    match MemType(d.kind)
    case None => out
    case Some(t) =>
      var k := |out| - 1;
      if out != [] && out[k].kind == t && d.start == out[k].address + out[k].length
      then out[..k] + [out[k].(length := out[k].length + Size(d))]
      else out + [Entry(d.start, Size(d), t)]
  }

  function Joined(ds: seq<Efi>): (r: seq<Entry>)
  {
    if ds == [] then [] else Join(Joined(ds[..|ds| - 1]), ds[|ds| - 1])
  }

  // ----- which addresses have which type -----

  predicate Covers(e: Entry, a: nat) { e.address <= a < e.address + e.length }

  predicate Owns(d: Efi, a: nat) { d.start <= a < d.start + Size(d) }

  /** Address a has type t in the table. */
  ghost predicate TypeIs(out: seq<Entry>, a: nat, t: nat)
  {
    exists i :: 0 <= i < |out| && Covers(out[i], a) && out[i].kind == t
  }

  /** The firmware says that address a is of a kind that is mapped to t. */
  ghost predicate Described(ds: seq<Efi>, a: nat, t: nat)
  {
    exists i :: 0 <= i < |ds| && Owns(ds[i], a) && MemType(ds[i].kind) == Some(t)
  }

  lemma TypeAppend(out: seq<Entry>, e: Entry, a: nat, t: nat)
    ensures TypeIs(out + [e], a, t) <==> TypeIs(out, a, t) || (Covers(e, a) && e.kind == t)
  {
    if TypeIs(out, a, t) {
      var i :| 0 <= i < |out| && Covers(out[i], a) && out[i].kind == t;
      assert (out + [e])[i] == out[i];
    }
    assert (out + [e])[|out|] == e;
  }

  lemma DescribedAppend(ds: seq<Efi>, d: Efi, a: nat, t: nat)
    ensures Described(ds + [d], a, t) <==> Described(ds, a, t) || (Owns(d, a) && MemType(d.kind) == Some(t))
  {
    if Described(ds, a, t) {
      var i :| 0 <= i < |ds| && Owns(ds[i], a) && MemType(ds[i].kind) == Some(t);
      assert (ds + [d])[i] == ds[i];
    }
    assert (ds + [d])[|ds|] == d;
  }

  lemma JoinTypes(out: seq<Entry>, d: Efi, a: nat, t: nat)
    ensures TypeIs(Join(out, d), a, t) <==> TypeIs(out, a, t) || (Owns(d, a) && MemType(d.kind) == Some(t))
  {
    match MemType(d.kind)
    case None =>
    case Some(u) =>
      var k := |out| - 1;
      if out != [] && out[k].kind == u && d.start == out[k].address + out[k].length {
        assert out == out[..k] + [out[k]];
        TypeAppend(out[..k], out[k], a, t);
        TypeAppend(out[..k], out[k].(length := out[k].length + Size(d)), a, t);
      } else {
        TypeAppend(out, Entry(d.start, Size(d), u), a, t);
      }
  }

  /** The table gives an address a type exactly if the firmware does, whatever the descriptors. */
  lemma {:induction false} SameTypes(ds: seq<Efi>, a: nat, t: nat)
    ensures TypeIs(Joined(ds), a, t) <==> Described(ds, a, t)
    decreases |ds|
  {
    if ds != [] {
      var k := |ds| - 1;
      SameTypes(ds[..k], a, t);
      JoinTypes(Joined(ds[..k]), ds[k], a, t);
      DescribedAppend(ds[..k], ds[k], a, t);
      assert ds == ds[..k] + [ds[k]];
    }
  }

  /** The kinds of the UEFI specification, section 7.2, by name. */
  datatype EfiKind = EfiReservedMemoryType | EfiLoaderCode | EfiLoaderData | EfiBootServicesCode | EfiBootServicesData
    | EfiRuntimeServicesCode | EfiRuntimeServicesData | EfiConventionalMemory | EfiUnusableMemory | EfiACPIReclaimMemory
    | EfiACPIMemoryNVS | EfiMemoryMappedIO | EfiMemoryMappedIOPortSpace | EfiPalCode | EfiPersistentMemory

  const KINDS: seq<EfiKind> :=
    [EfiReservedMemoryType, EfiLoaderCode, EfiLoaderData, EfiBootServicesCode, EfiBootServicesData,
     EfiRuntimeServicesCode, EfiRuntimeServicesData, EfiConventionalMemory, EfiUnusableMemory, EfiACPIReclaimMemory,
     EfiACPIMemoryNVS, EfiMemoryMappedIO, EfiMemoryMappedIOPortSpace, EfiPalCode, EfiPersistentMemory]

  const RAM: nat := 1
  const RESERVED: nat := 2
  const ACPI_RECLAIM: nat := 3
  const ACPI_NVS: nat := 4
  const UNUSABLE: nat := 5

  /** Which kinds become usable memory, and what the others become; a number that is no kind's is skipped. */
  lemma TypesOfKinds(n: nat)
    ensures MemType(n) == None <==> n >= |KINDS|
    ensures n < |KINDS| ==> var k := KINDS[n];
      && (MemType(n) == Some(RAM) <==>
            k in {EfiLoaderCode, EfiLoaderData, EfiBootServicesCode, EfiBootServicesData, EfiRuntimeServicesCode,
                  EfiRuntimeServicesData, EfiConventionalMemory, EfiPersistentMemory})
      && (MemType(n) == Some(RESERVED) <==>
            k in {EfiReservedMemoryType, EfiMemoryMappedIO, EfiMemoryMappedIOPortSpace, EfiPalCode})
      && (MemType(n) == Some(ACPI_RECLAIM) <==> k == EfiACPIReclaimMemory)
      && (MemType(n) == Some(ACPI_NVS) <==> k == EfiACPIMemoryNVS)
      && (MemType(n) == Some(UNUSABLE) <==> k == EfiUnusableMemory)
  {
  }

  // ----- entries are whole runs -----

  /** The descriptors that are not skipped. */
  function MappedOnes(ds: seq<Efi>): (r: seq<Efi>)
  {
    if ds == [] then []
    else MappedOnes(ds[..|ds| - 1]) + if MemType(ds[|ds| - 1].kind).Some? then [ds[|ds| - 1]] else []
  }

  function TotalSize(ds: seq<Efi>): (r: nat)
  {
    if ds == [] then 0 else TotalSize(ds[..|ds| - 1]) + Size(ds[|ds| - 1])
  }

  /** e covers ds: descriptors of one type, each of which begins where the one before ends. */
  ghost predicate RunOf(ds: seq<Efi>, e: Entry)
  {
    && ds != [] && e.address == ds[0].start && e.length == TotalSize(ds)
    && forall i | 0 <= i < |ds| :: Follows(ds, e, i)
  }

  ghost predicate Follows(ds: seq<Efi>, e: Entry, i: nat)
    requires i < |ds|
  {
    MemType(ds[i].kind) == Some(e.kind) && ds[i].start == e.address + TotalSize(ds[..i])
  }

  /** Entry i of the table covers descriptors cuts[i] to cuts[i + 1]. */
  ghost predicate CutAt(ds: seq<Efi>, out: seq<Entry>, cuts: seq<nat>, i: nat)
    requires i < |out| < |cuts|
  {
    cuts[i] < cuts[i + 1] <= |ds| && RunOf(ds[cuts[i]..cuts[i + 1]], out[i])
  }

  ghost predicate CutInto(ds: seq<Efi>, out: seq<Entry>, cuts: seq<nat>)
  {
    && |cuts| == |out| + 1 && cuts[0] == 0 && cuts[|out|] == |ds|
    && forall i | 0 <= i < |out| :: CutAt(ds, out, cuts, i)
  }

  predicate Adjoin(e: Entry, n: Entry) { e.kind == n.kind && e.address + e.length == n.address }

  /** No entry could have been joined with the one behind it. */
  ghost predicate Coalesced(out: seq<Entry>)
  {
    forall i | 0 <= i < |out| - 1 :: !AdjoinsNext(out, i)
  }

  predicate AdjoinsNext(out: seq<Entry>, i: nat)
    requires i + 1 < |out|
  {
    Adjoin(out[i], out[i + 1])
  }

  lemma RunGrows(ds: seq<Efi>, e: Entry, d: Efi)
    requires RunOf(ds, e) && MemType(d.kind) == Some(e.kind) && d.start == e.address + e.length
    ensures RunOf(ds + [d], e.(length := e.length + Size(d)))
  {
    var r, longer := ds + [d], e.(length := e.length + Size(d));
    assert r[..|ds|] == ds;
    forall i | 0 <= i < |r| ensures Follows(r, longer, i) {
      if i < |ds| {
        assert Follows(ds, e, i);
        assert r[..i] == ds[..i];
      }
    }
  }

  lemma RunStarts(d: Efi, t: nat)
    requires MemType(d.kind) == Some(t)
    ensures RunOf([d], Entry(d.start, Size(d), t))
  {
    assert [d][..0] == [];
  }

  /** What one turn makes of runs cut so far. */
  lemma JoinCuts(ds: seq<Efi>, out: seq<Entry>, cuts: seq<nat>, d: Efi) returns (cuts': seq<nat>)
    requires CutInto(ds, out, cuts) && Coalesced(out) && MemType(d.kind).Some?
    ensures CutInto(ds + [d], Join(out, d), cuts') && Coalesced(Join(out, d))
  {
    hide RunOf;
    var t, k, all := MemType(d.kind).value, |out| - 1, ds + [d];
    var r := Join(out, d);
    if out != [] && out[k].kind == t && d.start == out[k].address + out[k].length {
      cuts' := cuts[..|out|] + [|ds| + 1];
      assert CutAt(ds, out, cuts, k);
      assert ds[cuts[k]..cuts[k + 1]] == ds[cuts[k]..];
      RunGrows(ds[cuts[k]..], out[k], d);
      assert all[cuts[k]..|ds| + 1] == ds[cuts[k]..] + [d];
    } else {
      cuts' := cuts + [|ds| + 1];
      RunStarts(d, t);
      assert all[|ds|..|ds| + 1] == [d];
    }
    forall i | 0 <= i < |r| - 1 ensures !AdjoinsNext(r, i) {
      if i + 1 < |out| { assert !AdjoinsNext(out, i); }
    }
    forall i | 0 <= i < |r| ensures CutAt(all, r, cuts', i) {
      if i < |r| - 1 {
        assert CutAt(ds, out, cuts, i);
        assert all[cuts[i]..cuts[i + 1]] == ds[cuts[i]..cuts[i + 1]];
      }
    }
  }

  /** The first loop cuts the mapped descriptors into runs, one for each entry, and the runs are as
      long as they can be: this leaves only one table for given descriptors. */
  lemma {:induction false} JoinedRuns(ds: seq<Efi>) returns (cuts: seq<nat>)
    ensures CutInto(MappedOnes(ds), Joined(ds), cuts) && Coalesced(Joined(ds))
    decreases |ds|
  {
    if ds == [] {
      cuts := [0];
    } else {
      var d := ds[|ds| - 1];
      cuts := JoinedRuns(ds[..|ds| - 1]);
      if MemType(d.kind).Some? {
        cuts := JoinCuts(MappedOnes(ds[..|ds| - 1]), Joined(ds[..|ds| - 1]), cuts, d);
      } else {
        assert MappedOnes(ds) == MappedOnes(ds[..|ds| - 1]);
      }
    }
  }

  // ----- bytes of each type -----

  function Bytes(out: seq<Entry>, t: nat): (r: nat)
  {
    if out == [] then 0
    else Bytes(out[..|out| - 1], t) + if out[|out| - 1].kind == t then out[|out| - 1].length else 0
  }

  function FirmwareBytes(ds: seq<Efi>, t: nat): (r: nat)
  {
    if ds == [] then 0
    else FirmwareBytes(ds[..|ds| - 1], t) + if MemType(ds[|ds| - 1].kind) == Some(t) then Size(ds[|ds| - 1]) else 0
  }

  lemma BytesAppend(out: seq<Entry>, e: Entry, t: nat)
    ensures Bytes(out + [e], t) == Bytes(out, t) + if e.kind == t then e.length else 0
  {
  }

  /** Joining loses and adds no byte of any type. */
  lemma {:induction false} BytesConserved(ds: seq<Efi>, t: nat)
    ensures Bytes(Joined(ds), t) == FirmwareBytes(ds, t)
    decreases |ds|
  {
    if ds != [] {
      var d, out := ds[|ds| - 1], Joined(ds[..|ds| - 1]);
      BytesConserved(ds[..|ds| - 1], t);
      match MemType(d.kind)
      case None =>
      case Some(u) =>
        var k := |out| - 1;
        if out != [] && out[k].kind == u && d.start == out[k].address + out[k].length {
          BytesAppend(out[..k], out[k].(length := out[k].length + Size(d)), t);
        } else {
          BytesAppend(out, Entry(d.start, Size(d), u), t);
        }
    }
  }

  // ----- no overlaps -----

  ghost predicate Disjoint(ds: seq<Efi>)
  {
    forall i, j, a | 0 <= i < j < |ds| :: !(Owns(ds[i], a) && Owns(ds[j], a))
  }

  ghost predicate Apart(out: seq<Entry>)
  {
    forall i, j, a | 0 <= i < j < |out| :: !(Covers(out[i], a) && Covers(out[j], a))
  }

  /** Every byte of an entry is one of a descriptor it was made from. */
  lemma {:induction false} EntriesFromDescriptors(ds: seq<Efi>, i: nat, a: nat)
    requires i < |Joined(ds)| && Covers(Joined(ds)[i], a)
    ensures Described(ds, a, Joined(ds)[i].kind)
  {
    SameTypes(ds, a, Joined(ds)[i].kind);
    assert TypeIs(Joined(ds), a, Joined(ds)[i].kind);
  }

  /** If the descriptors do not overlap, neither do the entries. */
  lemma {:induction false} EntriesApart(ds: seq<Efi>)
    requires Disjoint(ds)
    ensures Apart(Joined(ds))
    decreases |ds|
  {
    if ds != [] {
      var n := |ds| - 1;
      var d, out := ds[n], Joined(ds[..n]);
      assert Disjoint(ds[..n]);
      EntriesApart(ds[..n]);
      forall i, a | 0 <= i < |out| && Covers(out[i], a) ensures !Owns(d, a) {
        EntriesFromDescriptors(ds[..n], i, a);
        var j :| 0 <= j < n && Owns(ds[..n][j], a);
        assert Owns(ds[j], a);
      }
      JoinApart(out, d);
    }
  }

  lemma JoinApart(out: seq<Entry>, d: Efi)
    requires Apart(out) && forall i, a | 0 <= i < |out| && Covers(out[i], a) :: !Owns(d, a)
    ensures Apart(Join(out, d))
  {
    var r := Join(out, d);
    forall i, j, a | 0 <= i < j < |r| && Covers(r[j], a) ensures !Covers(r[i], a) {
      assert i < |out| && r[i] == out[i];
      assert Owns(d, a) || (j < |out| && Covers(out[j], a));
    }
  }

  // ----- sorting -----

  ghost predicate Sorted(out: seq<Entry>)
  {
    forall i, j | 0 <= i < j < |out| :: out[i].address <= out[j].address
  }

  /** Descriptors that come in order of address and do not overlap. */
  ghost predicate InAddressOrder(ds: seq<Efi>)
  {
    forall i, j | 0 <= i < j < |ds| :: ds[i].start + Size(ds[i]) <= ds[j].start
  }

  /** Then the entries come in order, too. */
  lemma {:induction false} JoinedSorted(ds: seq<Efi>)
    requires InAddressOrder(ds)
    ensures Sorted(Joined(ds))
    ensures forall i | 0 <= i < |Joined(ds)| :: ds != [] && Joined(ds)[i].address <= ds[|ds| - 1].start
    decreases |ds|
  {
    if ds != [] {
      var d, before := ds[|ds| - 1], ds[..|ds| - 1];
      JoinedSorted(before);
      if before != [] { assert before[|before| - 1].start <= d.start; }
      JoinSorted(Joined(before), d);
    }
  }

  lemma JoinSorted(out: seq<Entry>, d: Efi)
    requires Sorted(out) && forall i | 0 <= i < |out| :: out[i].address <= d.start
    ensures Sorted(Join(out, d)) && forall i | 0 <= i < |Join(out, d)| :: Join(out, d)[i].address <= d.start
  {
  }

  /** e covers some run of neighbouring mapped descriptors. */
  ghost predicate CoversRun(ds: seq<Efi>, e: Entry)
  {
    exists i, j :: 0 <= i <= j <= |MappedOnes(ds)| && RunOf(MappedOnes(ds)[i..j], e)
  }

  lemma EntriesCoverRuns(ds: seq<Efi>)
    ensures forall e | e in Joined(ds) :: CoversRun(ds, e)
  {
    hide RunOf;
    var cuts := JoinedRuns(ds);
    forall e | e in Joined(ds) ensures CoversRun(ds, e) {
      var i :| 0 <= i < |Joined(ds)| && Joined(ds)[i] == e;
      assert CutAt(MappedOnes(ds), Joined(ds), cuts, i);
    }
  }

  /** A rearrangement keeps the type of every address, and, if nothing overlapped, that nothing does. */
  lemma PermutedTypes(x: seq<Entry>, y: seq<Entry>, a: nat, t: nat)
    requires multiset(x) == multiset(y)
    ensures TypeIs(x, a, t) <==> TypeIs(y, a, t)
  {
    if TypeIs(x, a, t) { PermutedOneWay(x, y, a, t); }
    if TypeIs(y, a, t) { PermutedOneWay(y, x, a, t); }
  }

  lemma PermutedOneWay(x: seq<Entry>, y: seq<Entry>, a: nat, t: nat)
    requires multiset(x) == multiset(y) && TypeIs(x, a, t)
    ensures TypeIs(y, a, t)
  {
    var i :| 0 <= i < |x| && Covers(x[i], a) && x[i].kind == t;
    assert x[i] in multiset(x);
    assert x[i] in y;
    var j :| 0 <= j < |y| && y[j] == x[i];
  }

  lemma {:induction false} PermutedBytes(x: seq<Entry>, y: seq<Entry>, t: nat)
    requires multiset(x) == multiset(y)
    ensures Bytes(x, t) == Bytes(y, t)
    decreases |x|
  {
    if x == [] {
      assert |multiset(y)| == |y|;
    } else {
      var n := |x| - 1;
      var j := IndexIn(x, y, n);
      hide Bytes;
      Without(x, n);
      Without(y, j);
      PermutedBytes(x[..n] + x[n + 1..], y[..j] + y[j + 1..], t);
      BytesRemove(x, n, t);
      BytesRemove(y, j, t);
    }
  }

  lemma IndexIn(x: seq<Entry>, y: seq<Entry>, n: nat) returns (j: nat)
    requires multiset(x) == multiset(y) && n < |x|
    ensures j < |y| && y[j] == x[n]
  {
    assert x[n] in multiset(y);
    assert x[n] in y;
    j :| 0 <= j < |y| && y[j] == x[n];
  }

  lemma BytesRemove(y: seq<Entry>, j: nat, t: nat)
    requires j < |y|
    ensures Bytes(y, t) == Bytes(y[..j] + y[j + 1..], t) + if y[j].kind == t then y[j].length else 0
  {
    assert y == y[..j] + ([y[j]] + y[j + 1..]);
    BytesSplit(y[..j], [y[j]] + y[j + 1..], t);
    BytesSplit([y[j]], y[j + 1..], t);
    BytesSplit(y[..j], y[j + 1..], t);
    assert Bytes([y[j]], t) == if y[j].kind == t then y[j].length else 0;
  }

  lemma Without(x: seq<Entry>, i: nat)
    requires i < |x|
    ensures multiset(x[..i] + x[i + 1..]) == multiset(x) - multiset{x[i]}
  {
    assert x == x[..i] + ([x[i]] + x[i + 1..]);
  }

  lemma {:induction false} BytesSplit(x: seq<Entry>, y: seq<Entry>, t: nat)
    ensures Bytes(x + y, t) == Bytes(x, t) + Bytes(y, t)
    decreases |y|
  {
    if y == [] {
      assert x + y == x;
    } else {
      BytesSplit(x, y[..|y| - 1], t);
      assert (x + y)[..|x + y| - 1] == x + y[..|y| - 1];
    }
  }

  lemma PermutedApart(x: seq<Entry>, y: seq<Entry>)
    requires multiset(x) == multiset(y) && Apart(x)
    ensures Apart(y)
  {
    forall i, j, a | 0 <= i < j < |y| && Covers(y[i], a) ensures !Covers(y[j], a) {
      if Covers(y[j], a) { TwoCover(x, y, i, j, a); }
    }
  }

  lemma TwoCover(x: seq<Entry>, y: seq<Entry>, i: nat, j: nat, a: nat)
    requires multiset(x) == multiset(y) && i < j < |y| && Covers(y[i], a) && Covers(y[j], a)
    ensures !Apart(x)
  {
    var e := y[i];
    if y[j] == e {
      assert y == y[..i] + ([e] + (y[i + 1..j] + ([e] + y[j + 1..])));
      assert multiset(y)[e] >= 2;
      Twice(x, e);
    } else {
      assert e in multiset(y) && y[j] in multiset(y);
      assert e in x && y[j] in x;
    }
  }

  lemma {:induction false} Twice(x: seq<Entry>, e: Entry)
    requires multiset(x)[e] >= 2
    ensures exists i, j :: 0 <= i < j < |x| && x[i] == e && x[j] == e
  {
    assert e in x;
    var i :| 0 <= i < |x| && x[i] == e;
    assert x == x[..i] + ([e] + x[i + 1..]);
    var rest := x[..i] + x[i + 1..];
    assert multiset(rest)[e] >= 1;
    assert e in rest;
    var k :| 0 <= k < |rest| && rest[k] == e;
    assert rest[k] == x[if k < i then k else k + 1];
  }

  // ----- the loops -----

  /** Descriptors the firmware can give: 64-bit addresses, the last byte below the very top. */
  predicate Physical(d: Efi)
  {
    d.start + Size(d) < TWO_64
  }

  /** One turn of the first loop: the table's last entry is lengthened in place, or one is added. */
  method AddDescriptor(d: Efi, table: array<Entry>, count: nat, lastEnd: nat) returns (count1: nat, end: nat, full: bool)
    requires count <= table.Length && Physical(d)
    requires count > 0 ==> lastEnd == table[count - 1].address + table[count - 1].length
    requires lastEnd < TWO_64
    modifies table
    ensures full <==> |Join(old(table[..count]), d)| > table.Length
    ensures count <= count1 <= table.Length && (!full ==> table[..count1] == Join(old(table[..count]), d))
    ensures !full && count1 > 0 ==> end == table[count1 - 1].address + table[count1 - 1].length
    ensures end < TWO_64
  {
    count1, end, full := count, lastEnd, false;
    match MemType(d.kind) {
      case None =>
      case Some(t) =>
        var bytes := d.pages * 4096;
        if count > 0 && table[count - 1].kind == t && d.start == lastEnd {
          table[count - 1] := table[count - 1].(length := table[count - 1].length + bytes);
          end := (lastEnd + bytes) % TWO_64;
        } else if count == table.Length {
          full := true;
        } else {
          table[count] := Entry(d.start, bytes, t);
          end := (d.start + bytes) % TWO_64;
          count1 := count + 1;
        }
    }
  }

  lemma {:induction false} JoinedGrows(ds: seq<Efi>, i: nat)
    requires i <= |ds|
    ensures |Joined(ds[..i])| <= |Joined(ds)|
    decreases |ds| - i
  {
    if i < |ds| {
      assert ds[..i + 1][..i] == ds[..i];
      JoinedGrows(ds, i + 1);
    } else {
      assert ds[..i] == ds;
    }
  }

  /** The first loop of Get_MemMap; full where the source goes on behind the table. */
  method JoinDescriptors(ds: seq<Efi>, table: array<Entry>) returns (count: nat, full: bool)
    requires forall i | 0 <= i < |ds| :: Physical(ds[i])
    modifies table
    ensures full <==> |Joined(ds)| > table.Length
    ensures count <= table.Length && (!full ==> table[..count] == Joined(ds))
  {
    count, full := 0, false;
    var lastEnd: nat := 0;
    var i := 0;
    hide Join, Physical;
    while i < |ds|
      invariant 0 <= i <= |ds| && count <= table.Length && table[..count] == Joined(ds[..i]) && lastEnd < TWO_64
      invariant count > 0 ==> lastEnd == table[count - 1].address + table[count - 1].length
    {
      assert ds[..i + 1][..i] == ds[..i];
      count, lastEnd, full := AddDescriptor(ds[i], table, count, lastEnd);
      JoinedGrows(ds, i + 1);
      if full { return; }
      i := i + 1;
    }
    assert ds[..i] == ds;
  }

  method Exchange(table: array<Entry>, i: nat, j: nat, count: nat)
    requires i < j < count <= table.Length
    modifies table
    ensures multiset(table[..count]) == multiset(old(table[..count]))
    ensures table[i] == old(table[j]) && table[j] == old(table[i])
    ensures forall k | 0 <= k < table.Length && k != i && k != j :: table[k] == old(table[k])
  {
    table[i], table[j] := table[j], table[i];
    assert table[..count] == old(table[..count])[i := old(table[j])][j := old(table[i])];
  }

  /** The second loop: an exchange sort in place. */
  method SortEntries(table: array<Entry>, count: nat)
    requires count <= table.Length
    modifies table
    ensures multiset(table[..count]) == multiset(old(table[..count])) && Sorted(table[..count])
    ensures Sorted(old(table[..count])) ==> table[..count] == old(table[..count])
  {
    var i := 0;
    ghost var before := table[..count];
    while i < count
      invariant 0 <= i <= count && (Sorted(before) ==> table[..count] == before)
      invariant multiset(table[..count]) == multiset(old(table[..count]))
      invariant forall p, q | 0 <= p < q < count && p < i :: table[p].address <= table[q].address
    {
      var j := i + 1;
      while j < count
        invariant i < j <= count && (Sorted(before) ==> table[..count] == before)
        invariant multiset(table[..count]) == multiset(old(table[..count]))
        invariant forall p, q | 0 <= p < q < count && p < i :: table[p].address <= table[q].address
        invariant forall q | i < q < j :: table[i].address <= table[q].address
      {
        if table[i].address > table[j].address {
          assert table[..count][i].address > table[..count][j].address;
          Exchange(table, i, j, count);
        }
        j := j + 1;
      }
      i := i + 1;
    }
  }

  /** Get_MemMap after the firmware's answer: every address has exactly the type the firmware gives it,
      no other address is covered, the bytes of each type are the firmware's, the entries are in order
      of address, and no two overlap if no two descriptors do. Each entry covers a whole run of
      descriptors; and if the descriptors come in order, no entry could be joined with the next. */
  method GetMemMap(ds: seq<Efi>, table: array<Entry>) returns (count: nat, full: bool)
    requires forall i | 0 <= i < |ds| :: Physical(ds[i])
    modifies table
    ensures count <= table.Length && (full <==> |Joined(ds)| > table.Length)
    ensures !full ==> Sorted(table[..count]) && multiset(table[..count]) == multiset(Joined(ds))
    ensures !full ==> forall a, t :: TypeIs(table[..count], a, t) <==> Described(ds, a, t)
    ensures !full ==> forall t :: Bytes(table[..count], t) == FirmwareBytes(ds, t)
    ensures !full && Disjoint(ds) ==> Apart(table[..count])
    ensures !full ==> forall e | e in table[..count] :: CoversRun(ds, e)
    ensures !full && InAddressOrder(ds) ==> Coalesced(table[..count])
  {
    count, full := JoinDescriptors(ds, table);
    if !full {
      ghost var cuts := JoinedRuns(ds);
      if InAddressOrder(ds) { JoinedSorted(ds); }
      SortEntries(table, count);
      TableFacts(ds, table[..count]);
    }
  }

  lemma TableFacts(ds: seq<Efi>, out: seq<Entry>)
    requires multiset(out) == multiset(Joined(ds))
    ensures forall a, t :: TypeIs(out, a, t) <==> Described(ds, a, t)
    ensures forall t :: Bytes(out, t) == FirmwareBytes(ds, t)
    ensures Disjoint(ds) ==> Apart(out)
    ensures forall e | e in out :: CoversRun(ds, e)
  {
    EntriesCoverRuns(ds);
    assert forall e | e in out :: e in multiset(out);
    forall a, t ensures TypeIs(out, a, t) <==> Described(ds, a, t) {
      SameTypes(ds, a, t);
      PermutedTypes(out, Joined(ds), a, t);
    }
    forall t ensures Bytes(out, t) == FirmwareBytes(ds, t) {
      BytesConserved(ds, t);
      PermutedBytes(out, Joined(ds), t);
    }
    if Disjoint(ds) {
      EntriesApart(ds);
      PermutedApart(Joined(ds), out);
    }
  }

  /** In order and without overlap, each entry that has bytes ends before the next one that has begins. */
  lemma InOrder(out: seq<Entry>, i: nat, j: nat)
    requires Sorted(out) && Apart(out) && i < j < |out| && out[i].length > 0 && out[j].length > 0
    ensures out[i].address + out[i].length <= out[j].address
  {
    var a := out[j].address;
    assert Covers(out[j], a);
    assert !Covers(out[i], a);
  }
}
