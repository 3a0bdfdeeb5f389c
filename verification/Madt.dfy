/** The interrupt controller entries of the MADT (section 5.2.12 of the ACPI Specification):
    a stream of entries, each starting with a type and a length byte. */
module Madt {
  import opened Bits

  const LOCAL_APIC: Byte := 0
  const IO_APIC: Byte := 1
  const INTERRUPT_OVERRIDE: Byte := 2
  const MAX_NEEDED_CORES: nat := 16
  const CELLS: nat := 0x100       // the 16 cells of acpi_cpuids and the memory an 8-bit index reaches behind them
  const LAPIC_ADDR: nat := 36     // offset of the local APIC address in the table
  const HEADER_SIZE: nat := 44    // sizeof(acpi_madt_t)
  const LARGEST_ENTRY: nat := 12  // bytes the walkers may read from a cursor on

  function Join(b0: nat, b1: nat, b2: nat, b3: nat): (w: nat)
    requires b0 < 0x100 && b1 < 0x100 && b2 < 0x100 && b3 < 0x100
    ensures w < TWO_32
  {
    b0 + 0x100 * b1 + 0x1_0000 * b2 + 0x100_0000 * b3
  }

  /** A little-endian 32-bit field. */
  function U32(b: seq<Byte>, i: nat): (w: Word32)
    requires i + 4 <= |b|
  {
    Join(b[i], b[i + 1], b[i + 2], b[i + 3])
  }

  lemma JoinSplits(b0: Byte, b1: Byte, b2: Byte, b3: Byte)
    ensures var n := Join(b0, b1, b2, b3);
            n % 0x100 == b0 && n / 0x100 % 0x100 == b1 && n / 0x1_0000 % 0x100 == b2 && n / 0x100_0000 == b3
  {
    var n := Join(b0, b1, b2, b3);
    assert n / 0x100 == b1 + 0x100 * b2 + 0x1_0000 * b3;
    assert n / 0x1_0000 == b2 + 0x100 * b3;
  }

  lemma SplitJoins(n: Word32)
    ensures Join(n % 0x100, n / 0x100 % 0x100, n / 0x1_0000 % 0x100, n / 0x100_0000) == n
  {
    assert n / 0x1_0000 == n / 0x100 / 0x100 && n / 0x100_0000 == n / 0x1_0000 / 0x100;
  }

  /** Four bytes are a number with the lowest byte first. */
  lemma LittleEndian(b: seq<Byte>, i: nat, n: Word32)
    requires i + 4 <= |b|
    ensures U32(b, i) == n <==>
              b[i..i + 4] == [n % 0x100, n / 0x100 % 0x100, n / 0x1_0000 % 0x100, n / 0x100_0000]
  {
    var bytes := b[i..i + 4];
    assert bytes[0] == b[i] && bytes[1] == b[i + 1] && bytes[2] == b[i + 2] && bytes[3] == b[i + 3];
    JoinSplits(b[i], b[i + 1], b[i + 2], b[i + 3]);
    SplitJoins(n);
  }

  /** The walkers stop at `end` or at an entry of length zero. The test for the end of the bytes
      only keeps the length byte in range: it decides nothing where the bytes reach past `end`. */
  predicate Stops(b: seq<Byte>, p: nat, end: nat) {
    p >= end || p + 1 >= |b| || b[p + 1] == 0
  }

  /** The positions a walk from p visits. */
  function Cursors(b: seq<Byte>, p: nat, end: nat): seq<nat>
    decreases end - p
  {
    if Stops(b, p, end) then [] else [p] + Cursors(b, p + b[p + 1], end)
  }

  /** The position a walk from p stops at. */
  function StopAt(b: seq<Byte>, p: nat, end: nat): nat
    decreases end - p
  {
    if Stops(b, p, end) then p else StopAt(b, p + b[p + 1], end)
  }

  function OfType(b: seq<Byte>, cursors: seq<nat>, kind: Byte): (r: seq<nat>)
    requires forall j :: 0 <= j < |cursors| ==> cursors[j] < |b|
    ensures forall j :: 0 <= j < |r| ==> r[j] in cursors && b[r[j]] == kind
  {
    if cursors == [] then []
    else (if b[cursors[0]] == kind then [cursors[0]] else []) + OfType(b, cursors[1..], kind)
  }

  lemma {:induction false} CursorsInside(b: seq<Byte>, p: nat, end: nat)
    ensures forall j :: 0 <= j < |Cursors(b, p, end)| ==>
              p <= Cursors(b, p, end)[j] < end && Cursors(b, p, end)[j] + 1 < |b|
    decreases end - p
  {
    if !Stops(b, p, end) {
      CursorsInside(b, p + b[p + 1], end);
    }
  }

  /** The entries of one type, in the order of the table. */
  function Found(b: seq<Byte>, p: nat, end: nat, kind: Byte): (r: seq<nat>)
    ensures forall j :: 0 <= j < |r| ==> p <= r[j] < end && r[j] + 1 < |b| && b[r[j]] == kind
  {
    CursorsInside(b, p, end);
    OfType(b, Cursors(b, p, end), kind)
  }

  lemma FoundStep(b: seq<Byte>, p: nat, end: nat, kind: Byte)
    requires !Stops(b, p, end)
    ensures var rest := Found(b, p + b[p + 1], end, kind);
            Found(b, p, end, kind) == if b[p] == kind then [p] + rest else rest
  {
    assert Cursors(b, p, end)[1..] == Cursors(b, p + b[p + 1], end);
  }

  lemma NothingFound(b: seq<Byte>, p: nat, end: nat, kind: Byte)
    requires Stops(b, p, end)
    ensures Found(b, p, end, kind) == []
  {
  }

  // ----- serialised entries -----

  /** An entry; its length byte counts the two header bytes. */
  datatype Entry = Entry(kind: Byte, body: seq<Byte>)

  ghost predicate Fits(e: Entry) {
    |e.body| + 2 < 0x100
  }

  function Bytes(e: Entry): seq<Byte>
    requires Fits(e)
  {
    [e.kind, |e.body| + 2] + e.body
  }

  function Serialize(es: seq<Entry>): seq<Byte>
    requires forall i :: 0 <= i < |es| ==> Fits(es[i])
  {
    if es == [] then [] else Bytes(es[0]) + Serialize(es[1..])
  }

  function EntryAt(b: seq<Byte>, p: nat): Entry
    requires p + 1 < |b| && 2 <= b[p + 1] && p + b[p + 1] <= |b|
  {
    Entry(b[p], b[p + 2..p + b[p + 1]])
  }

  /** Every entry the walk visits has room for its header and lies below `end`. */
  predicate WholeEntries(b: seq<Byte>, p: nat, end: nat)
    requires end <= |b|
    decreases end - p
  {
    Stops(b, p, end) || (2 <= b[p + 1] && p + b[p + 1] <= end && WholeEntries(b, p + b[p + 1], end))
  }

  function Entries(b: seq<Byte>, p: nat, end: nat): seq<Entry>
    requires end <= |b| && WholeEntries(b, p, end)
    decreases end - p
  {
    if Stops(b, p, end) then [] else [EntryAt(b, p)] + Entries(b, p + b[p + 1], end)
  }

  /** An entry is its type, the length of the whole, and its body. */
  lemma SerializeBytes(kind: Byte, body: seq<Byte>, es: seq<Entry>)
    requires |body| + 2 < 0x100 && forall i :: 0 <= i < |es| ==> Fits(es[i])
    ensures forall i :: 0 <= i < |[Entry(kind, body)] + es| ==> Fits(([Entry(kind, body)] + es)[i])
    ensures Serialize([Entry(kind, body)] + es) == [kind, |body| + 2] + body + Serialize(es)
    ensures Serialize([]) == []
  {
    var all := [Entry(kind, body)] + es;
    assert all[1..] == es && all[0] == Entry(kind, body);
  }

  /** The bytes of es lie at p, followed by `end` or by an entry of length zero. */
  ghost predicate Holds(b: seq<Byte>, p: nat, end: nat, es: seq<Entry>) {
    && (forall i :: 0 <= i < |es| ==> Fits(es[i]))
    && p + |Serialize(es)| <= end < |b|
    && b[p..p + |Serialize(es)|] == Serialize(es)
    && Stops(b, p + |Serialize(es)|, end)
  }

  lemma HoldsStart(b: seq<Byte>, p: nat, end: nat, es: seq<Entry>)
    requires Holds(b, p, end, es)
    ensures es == [] ==> Stops(b, p, end) && |Serialize(es)| == 0
    ensures p <= end < |b| && forall i :: 0 <= i < |es| ==> Fits(es[i])
  {
  }

  lemma HoldsRest(b: seq<Byte>, p: nat, end: nat, es: seq<Entry>)
    requires Holds(b, p, end, es) && es != []
    ensures !Stops(b, p, end) && p + b[p + 1] <= end
    ensures b[p] == es[0].kind && b[p + 1] == |es[0].body| + 2 && b[p + 2..p + b[p + 1]] == es[0].body
    ensures Holds(b, p + b[p + 1], end, es[1..])
  {
    var first, rest := Bytes(es[0]), Serialize(es[1..]);
    var q := p + |first|;
    var all := b[p..p + |Serialize(es)|];
    assert all == first + rest;
    assert b[p] == all[0] && b[p + 1] == all[1];
    assert first == all[..|first|];
    assert b[p..q] == first;
    assert b[p + 2..q] == b[p..q][2..] == first[2..] == es[0].body;
    assert b[q..q + |rest|] == all[|first|..] == rest;
  }

  lemma SerializeStep(es: seq<Entry>)
    requires es != [] && forall i :: 0 <= i < |es| ==> Fits(es[i])
    ensures |Serialize(es)| == |es[0].body| + 2 + |Serialize(es[1..])|
  {
  }

  /** Walking serialised entries visits exactly these entries, in order, and stops behind them. */
  lemma {:induction false} WalkInvertsSerialize(b: seq<Byte>, p: nat, end: nat, es: seq<Entry>)
    requires Holds(b, p, end, es)
    ensures WholeEntries(b, p, end) && Entries(b, p, end) == es && StopAt(b, p, end) == p + |Serialize(es)|
    decreases |es|
  {
    hide Holds, Stops, Serialize;
    HoldsStart(b, p, end, es);
    if es != [] {
      HoldsRest(b, p, end, es);
      SerializeStep(es);
      assert EntryAt(b, p) == es[0];
      WalkInvertsSerialize(b, p + b[p + 1], end, es[1..]);
    }
  }

  /** Serialising the entries a walk finds gives back the bytes it walked over. */
  lemma {:induction false} SerializeInvertsWalk(b: seq<Byte>, p: nat, end: nat)
    requires p <= end < |b| && WholeEntries(b, p, end)
    ensures var es := Entries(b, p, end);
            && (forall i :: 0 <= i < |es| ==> Fits(es[i]))
            && p <= StopAt(b, p, end) <= end && Serialize(es) == b[p..StopAt(b, p, end)]
    decreases end - p
  {
    if !Stops(b, p, end) {
      var q := p + b[p + 1];
      SerializeInvertsWalk(b, q, end);
      var es := Entries(b, p, end);
      assert es[1..] == Entries(b, q, end);
      assert Bytes(es[0]) == b[p..q];
    }
  }

  // ----- agreement of two walks -----

  ghost predicate AllBefore(found: seq<nat>, end: nat) {
    forall j :: 0 <= j < |found| ==> found[j] < end
  }

  lemma NoneBefore(found: seq<nat>, end: nat)
    requires forall j :: 0 <= j < |found| ==> found[j] >= end
    ensures AllBefore(found, end) <==> found == []
  {
    if found != [] {
      assert found[0] >= end;
    }
  }

  lemma BeforeStep(p: nat, rest: seq<nat>, end: nat)
    requires p < end
    ensures AllBefore([p] + rest, end) <==> AllBefore(rest, end)
  {
    assert forall j :: 0 <= j < |rest| ==> ([p] + rest)[j + 1] == rest[j];
  }

  /** A walk with an earlier end sees the first entries of one with a later end, and sees
      all of them exactly when it stopped at a zero length or at or beyond the later end. */
  lemma {:induction false} WalksAgreeIff(b: seq<Byte>, p: nat, end1: nat, end2: nat)
    requires end1 <= end2 < |b|
    ensures Cursors(b, p, end1) <= Cursors(b, p, end2)
    ensures var q := StopAt(b, p, end1);
            Cursors(b, p, end1) == Cursors(b, p, end2) <==> q >= end2 || b[q + 1] == 0
    decreases end1 - p
  {
    if !Stops(b, p, end1) {
      WalksAgreeIff(b, p + b[p + 1], end1, end2);
    }
  }

  /** A walk visits only positions before an earlier end exactly when the walk to that end stops
      at a zero length or at or beyond the later end. */
  lemma {:induction false} CursorsBeforeIff(b: seq<Byte>, p: nat, end1: nat, end2: nat)
    requires end1 <= end2 < |b|
    ensures var q := StopAt(b, p, end1);
            AllBefore(Cursors(b, p, end2), end1) <==> q >= end2 || b[q + 1] == 0
    decreases end2 - p
  {
    hide AllBefore;
    if Stops(b, p, end2) {
      NoneBefore([], end1);
    } else if p >= end1 {
      CursorsInside(b, p, end2);
      NoneBefore(Cursors(b, p, end2), end1);
    } else {
      BeforeStep(p, Cursors(b, p + b[p + 1], end2), end1);
      CursorsBeforeIff(b, p + b[p + 1], end1, end2);
    }
  }

  /** Of the entries of one type, the walk with the earlier end finds those before it: all of
      them exactly when they all start before it. */
  lemma {:induction false} FoundBefore(b: seq<Byte>, p: nat, end1: nat, end2: nat, kind: Byte)
    requires end1 <= end2 < |b|
    ensures var found1, found2 := Found(b, p, end1, kind), Found(b, p, end2, kind);
            |found1| <= |found2| && (|found1| == |found2| <==> AllBefore(found2, end1))
    decreases end2 - p
  {
    hide Found, AllBefore;
    if Stops(b, p, end2) {
      NothingFound(b, p, end1, kind);
      NothingFound(b, p, end2, kind);
      NoneBefore([], end1);
    } else if p >= end1 {
      NothingFound(b, p, end1, kind);
      NoneBefore(Found(b, p, end2, kind), end1);
    } else {
      FoundStep(b, p, end1, kind);
      FoundStep(b, p, end2, kind);
      FoundBefore(b, p + b[p + 1], end1, end2, kind);
      BeforeStep(p, Found(b, p + b[p + 1], end2, kind), end1);
    }
  }

  // ----- the walkers -----

  /** The last of the found entries, or none. */
  function IoApicPtr(b: seq<Byte>, found: seq<nat>, before: Word32): Word32
    requires forall j :: 0 <= j < |found| ==> found[j] + 8 <= |b|
  {
    if found == [] then before else U32(b, found[|found| - 1] + 4)
  }

  /** The cells after storing the processor ids: the guard lets indices 0 to 16 through. */
  function StoredIds(b: seq<Byte>, found: seq<nat>, before: seq<Byte>): (r: seq<Byte>)
    requires forall j :: 0 <= j < |found| ==> found[j] + 2 < |b|
    ensures |r| == |before|
  {
    seq(|before|, j requires 0 <= j < |before| =>
      if j < |found| && j <= MAX_NEEDED_CORES then b[found[j] + 2] else before[j])
  }

  lemma StoredStep(b: seq<Byte>, seen: seq<nat>, p: nat, before: seq<Byte>)
    requires (forall j :: 0 <= j < |seen| ==> seen[j] + 2 < |b|) && p + 2 < |b| && |before| == CELLS
    ensures StoredIds(b, seen + [p], before) ==
              if |seen| <= MAX_NEEDED_CORES then StoredIds(b, seen, before)[|seen| := b[p + 2]]
              else StoredIds(b, seen, before)
  {
  }

  lemma LastStep(b: seq<Byte>, seen: seq<nat>, p: nat, before: Word32)
    requires (forall j :: 0 <= j < |seen| ==> seen[j] + 8 <= |b|) && p + 8 <= |b|
    ensures IoApicPtr(b, seen + [p], before) == U32(b, p + 4) && IoApicPtr(b, [], before) == before
  {
  }

  /** The positions leave room for the largest entry. */
  ghost predicate InReach(b: seq<Byte>, found: seq<nat>) {
    forall j :: 0 <= j < |found| ==> found[j] + LARGEST_ENTRY <= |b|
  }

  lemma NothingStored(b: seq<Byte>, before: seq<Byte>)
    ensures StoredIds(b, [], before) == before
  {
  }

  /** The interrupt of the first override whose source is irq. */
  function Remapped(b: seq<Byte>, overrides: seq<nat>, irq: Word32): Word32
    requires forall j :: 0 <= j < |overrides| ==> overrides[j] + 8 <= |b|
  {
    if overrides == [] then irq
    else if b[overrides[0] + 3] == irq then U32(b, overrides[0] + 4)
    else Remapped(b, overrides[1..], irq)
  }

  lemma RemappedStep(b: seq<Byte>, p: nat, rest: seq<nat>, irq: Word32)
    requires p + 8 <= |b| && forall j :: 0 <= j < |rest| ==> rest[j] + 8 <= |b|
    ensures Remapped(b, [p] + rest, irq) == if b[p + 3] == irq then U32(b, p + 4) else Remapped(b, rest, irq)
  {
    assert ([p] + rest)[1..] == rest;
  }

  lemma CountUp(seen: nat)
    ensures (seen % 0x100 + 1) % 0x100 == (seen + 1) % 0x100
  {
    ModMultiple(seen % 0x100 + 1, seen / 0x100, 0x100);
  }

  function Detected(before: Byte, count: nat): Byte {
    if before > 0 then before else count % 0x100
  }

  class Acpi {
    const madt: array<Byte>       // the table and the memory behind it
    const acpiCpuids: array<Byte> // 16 cells, and the memory that follows them
    var localApicAddr: Word32
    var ioApicPtr: Word32
    var ncores: Byte

    ghost predicate Shaped(end: nat)
      reads this
    {
      && madt != acpiCpuids && acpiCpuids.Length == CELLS
      && HEADER_SIZE <= madt.Length && end + LARGEST_ENTRY <= madt.Length
    }

    constructor (madt: array<Byte>, acpiCpuids: array<Byte>)
      ensures this.madt == madt && this.acpiCpuids == acpiCpuids && ncores == 0
    {
      this.madt := madt;
      this.acpiCpuids := acpiCpuids;
      localApicAddr, ioApicPtr, ncores := 0, 0, 0;
    }

    method ReadU32(i: nat) returns (w: Word32)
      requires i + 4 <= madt.Length
      ensures w == U32(madt[..], i)
    {
      w := Join(madt[i], madt[i + 1], madt[i + 2], madt[i + 3]);
    }

    /** `parse_madt`, without its output: stores the ids of the processors in the order of the
        table, as far as the guard lets them through, and the address of the last I/O APIC. */
    method ParseMadt(end: nat)
      requires Shaped(end)
      modifies this`localApicAddr, this`ioApicPtr, acpiCpuids
      ensures madt[36..40] == [localApicAddr % 0x100, localApicAddr / 0x100 % 0x100,
                               localApicAddr / 0x1_0000 % 0x100, localApicAddr / 0x100_0000]
      ensures acpiCpuids[..] == StoredIds(madt[..], Found(madt[..], 44, end, 0), old(acpiCpuids[..]))
      ensures ioApicPtr == IoApicPtr(madt[..], Found(madt[..], 44, end, 1), old(ioApicPtr))
    {
      hide Found, U32, StoredIds, IoApicPtr;
      ghost var b, ids, address := madt[..], acpiCpuids[..], ioApicPtr;
      ghost var cpus, ioApics := Found(b, HEADER_SIZE, end, LOCAL_APIC), Found(b, HEADER_SIZE, end, IO_APIC);
      ghost var cpusSeen: seq<nat>, ioSeen: seq<nat> := [], [];
      var p: nat := HEADER_SIZE;
      var cpuidIdx: nat := 0;
      localApicAddr := ReadU32(LAPIC_ADDR);
      NothingStored(b, ids);
      LastStep(b, [], 0, address);
      while p < end
        invariant localApicAddr == U32(b, LAPIC_ADDR)
        invariant cpusSeen + Found(b, p, end, LOCAL_APIC) == cpus
        invariant ioSeen + Found(b, p, end, IO_APIC) == ioApics
        invariant InReach(b, ioSeen) && InReach(b, cpusSeen)
        invariant cpuidIdx == if |cpusSeen| <= MAX_NEEDED_CORES + 1 then |cpusSeen| else MAX_NEEDED_CORES + 1
        invariant acpiCpuids[..] == StoredIds(b, cpusSeen, ids)
        invariant ioApicPtr == IoApicPtr(b, ioSeen, address)
        invariant madt[..] == b
        decreases end - p
      {
        if madt[p + 1] == 0 { break; }
        FoundStep(b, p, end, LOCAL_APIC);
        FoundStep(b, p, end, IO_APIC);
        if madt[p] == LOCAL_APIC {
          StoredStep(b, cpusSeen, p, ids);
          if cpuidIdx <= MAX_NEEDED_CORES {
            acpiCpuids[cpuidIdx] := madt[p + 2];
            cpuidIdx := cpuidIdx + 1;
          }
          cpusSeen := cpusSeen + [p];
        } else if madt[p] == IO_APIC {
          LastStep(b, ioSeen, p, address);
          ioApicPtr := ReadU32(p + 4);
          ioSeen := ioSeen + [p];
        }
        p := p + madt[p + 1];
      }
      NothingFound(b, p, end, LOCAL_APIC);
      NothingFound(b, p, end, IO_APIC);
      assert cpusSeen == cpus && ioSeen == ioApics;
      LittleEndian(b, LAPIC_ADDR, localApicAddr);
    }

    /** `acpi_remap_irq`: the interrupt of the first override with this source, else irq. */
    method RemapIrq(irq: Word32, end: nat) returns (r: Word32)
      requires Shaped(end)
      ensures r == Remapped(madt[..], Found(madt[..], 44, end, 2), irq)
    {
      hide Found, U32;
      ghost var b := madt[..];
      var p: nat := HEADER_SIZE;
      while p < end
        invariant Remapped(b, Found(b, p, end, INTERRUPT_OVERRIDE), irq)
               == Remapped(b, Found(b, HEADER_SIZE, end, INTERRUPT_OVERRIDE), irq)
        decreases end - p
      {
        if madt[p + 1] == 0 { break; }
        FoundStep(b, p, end, INTERRUPT_OVERRIDE);
        if madt[p] == INTERRUPT_OVERRIDE {
          RemappedStep(b, p, Found(b, p + b[p + 1], end, INTERRUPT_OVERRIDE), irq);
          if madt[p + 3] == irq {
            r := ReadU32(p + 4);
            return;
          }
        }
        p := p + madt[p + 1];
      }
      NothingFound(b, p, end, INTERRUPT_OVERRIDE);
      return irq;
    }

    /** `cpu_detect_cores`: counts the local APICs in an 8-bit static and remembers the count. */
    method DetectCores(end: nat) returns (n: Byte)
      requires Shaped(end)
      modifies this`ncores
      ensures n == ncores == Detected(old(ncores), |Found(madt[..], 44, end, 0)|)
      ensures n == if old(ncores) > 0 then old(ncores) else |Found(madt[..], 44, end, 0)| % 0x100
    {
      hide Found;
      if ncores > 0 { return ncores; }
      ghost var b := madt[..];
      ghost var total := |Found(b, HEADER_SIZE, end, LOCAL_APIC)|;
      ghost var seen := 0;
      var p: nat := HEADER_SIZE;
      while p < end
        invariant seen + |Found(b, p, end, LOCAL_APIC)| == total
        invariant ncores == seen % 0x100
        decreases end - p
      {
        if madt[p + 1] == 0 { break; }
        FoundStep(b, p, end, LOCAL_APIC);
        if madt[p] == LOCAL_APIC {
          CountUp(seen);
          ncores := (ncores + 1) % 0x100;
          seen := seen + 1;
        }
        p := p + madt[p + 1];
      }
      NothingFound(b, p, end, LOCAL_APIC);
      return ncores;
    }

    /** The ids `cpu_wakeup_cores` reads, in order, past the 16 cells when the count is larger. */
    method WakeupIds() returns (ids: seq<Byte>)
      requires acpiCpuids.Length == CELLS
      ensures ids == acpiCpuids[..ncores]
    {
      ids := [];
      for i := 0 to ncores
        invariant ids == acpiCpuids[..i]
      {
        ids := ids + [acpiCpuids[i]];
      }
    }
  }
}
