/** What the three walkers compute, said of the list of entries. */
module MadtEntries {
  import opened Bits
  import opened Madt

  predicate Overrides(e: Entry, irq: Word32) {
    e.kind == INTERRUPT_OVERRIDE && |e.body| >= 6 && e.body[1] == irq
  }

  /** The entries of one kind, in order. */
  function OfKind(es: seq<Entry>, kind: Byte): seq<Entry> {
    if es == [] then []
    else (if es[0].kind == kind then [es[0]] else []) + OfKind(es[1..], kind)
  }

  /** The position c holds the entry e. */
  ghost predicate Lies(b: seq<Byte>, c: nat, e: Entry) {
    c + 1 < |b| && 2 <= b[c + 1] && c + b[c + 1] <= |b| && EntryAt(b, c) == e
  }

  /** The positions found for one type are those of the entries of that kind, in order. */
  lemma {:induction false} FoundAreEntries(b: seq<Byte>, p: nat, end: nat, es: seq<Entry>, kind: Byte)
    requires Holds(b, p, end, es)
    ensures |Found(b, p, end, kind)| == |OfKind(es, kind)|
    ensures forall j :: 0 <= j < |OfKind(es, kind)| ==> Lies(b, Found(b, p, end, kind)[j], OfKind(es, kind)[j])
    decreases |es|
  {
    hide Found, Holds, Stops;
    HoldsStart(b, p, end, es);
    if es == [] {
      NothingFound(b, p, end, kind);
    } else {
      HoldsRest(b, p, end, es);
      FoundStep(b, p, end, kind);
      assert Lies(b, p, es[0]);
      hide Lies;
      FoundAreEntries(b, p + b[p + 1], end, es[1..], kind);
    }
  }

  lemma SliceOfSlice(b: seq<Byte>, lo: nat, hi: nat, i: nat, j: nat)
    requires lo <= hi <= |b| && i <= j <= hi - lo
    ensures b[lo..hi][i..j] == b[lo + i..lo + j]
  {
    assert |b[lo..hi][i..j]| == |b[lo + i..lo + j]|;
    assert forall k :: 0 <= k < j - i ==> b[lo..hi][i..j][k] == b[lo + i..lo + j][k];
  }

  /** `parse_madt` ends with the address in bytes 2 to 5 of the last I/O APIC entry, lowest byte
      first, if there is one. */
  lemma IoApicFound(b: seq<Byte>, p: nat, end: nat, es: seq<Entry>, before: Word32, n: Word32)
    requires Holds(b, p, end, es) && end + LARGEST_ENTRY <= |b|
    requires forall i :: 0 <= i < |OfKind(es, 1)| ==> |OfKind(es, 1)[i].body| >= 6
    ensures var ioApics := OfKind(es, 1);
            IoApicPtr(b, Found(b, p, end, 1), before) == n <==>
              if ioApics == [] then n == before
              else ioApics[|ioApics| - 1].body[2..6] ==
                     [n % 0x100, n / 0x100 % 0x100, n / 0x1_0000 % 0x100, n / 0x100_0000]
  {
    hide Found, Holds, OfKind, U32;
    FoundAreEntries(b, p, end, es, 1);
    var ioApics, found := OfKind(es, 1), Found(b, p, end, 1);
    if ioApics != [] {
      var last := |ioApics| - 1;
      assert Lies(b, found[last], ioApics[last]);
      var c := found[last];
      SliceOfSlice(b, c + 2, c + b[c + 1], 2, 6);
      LittleEndian(b, found[last] + 4, n);
    }
  }

  /** The ids found are those of the local APIC entries, the first byte of their bodies, in order.
      The first 17 go to the cells; all other cells are as before. */
  lemma IdsFound(b: seq<Byte>, p: nat, end: nat, es: seq<Entry>, before: seq<Byte>)
    requires Holds(b, p, end, es) && end + LARGEST_ENTRY <= |b|
    requires forall i :: 0 <= i < |OfKind(es, 0)| ==> |OfKind(es, 0)[i].body| >= 1
    ensures |Found(b, p, end, 0)| == |OfKind(es, 0)|
    ensures forall j :: 0 <= j < |OfKind(es, 0)| ==> b[Found(b, p, end, 0)[j] + 2] == OfKind(es, 0)[j].body[0]
    ensures forall j :: 0 <= j < |before| ==>
              StoredIds(b, Found(b, p, end, 0), before)[j] ==
                if j < |OfKind(es, 0)| && j <= 16 then OfKind(es, 0)[j].body[0] else before[j]
  {
    hide Found, Holds, OfKind;
    FoundAreEntries(b, p, end, es, 0);
    forall j | 0 <= j < |OfKind(es, 0)|
      ensures b[Found(b, p, end, 0)[j] + 2] == OfKind(es, 0)[j].body[0]
    {
      assert Lies(b, Found(b, p, end, 0)[j], OfKind(es, 0)[j]);
    }
  }

  lemma OverrideFields(b: seq<Byte>, p: nat, e: Entry, irq: Word32)
    requires p + LARGEST_ENTRY <= |b| && b[p + 1] == |e.body| + 2 && p + b[p + 1] <= |b|
    requires e.kind == b[p] && e.body == b[p + 2..p + b[p + 1]]
    requires e.kind == INTERRUPT_OVERRIDE ==> |e.body| >= 6
    ensures Overrides(e, irq) <==> b[p] == INTERRUPT_OVERRIDE && b[p + 3] == irq
    ensures e.kind == INTERRUPT_OVERRIDE ==> e.body[2..6] == b[p + 4..p + 8]
  {
    if e.kind == INTERRUPT_OVERRIDE {
      SliceOfSlice(b, p + 2, p + b[p + 1], 2, 6);
    }
  }

  /** Override entries reach to the end of their interrupt field. */
  ghost predicate WholeOverrides(es: seq<Entry>) {
    forall i :: 0 <= i < |es| && es[i].kind == INTERRUPT_OVERRIDE ==> |es[i].body| >= 6
  }

  lemma {:induction false} RemapsFirstOf(b: seq<Byte>, p: nat, end: nat, es: seq<Entry>, irq: Word32, k: nat, n: Word32)
    requires Holds(b, p, end, es) && WholeOverrides(es) && end + LARGEST_ENTRY <= |b|
    requires k < |es| && (forall i :: 0 <= i < k ==> !Overrides(es[i], irq)) && Overrides(es[k], irq)
    ensures Remapped(b, Found(b, p, end, INTERRUPT_OVERRIDE), irq) == n <==>
              es[k].body[2..6] == [n % 0x100, n / 0x100 % 0x100, n / 0x1_0000 % 0x100, n / 0x100_0000]
    decreases |es|
  {
    hide Found, Holds, Stops, U32;
    HoldsStart(b, p, end, es);
    HoldsRest(b, p, end, es);
    FoundStep(b, p, end, INTERRUPT_OVERRIDE);
    OverrideFields(b, p, es[0], irq);
    if b[p] == INTERRUPT_OVERRIDE {
      RemappedStep(b, p, Found(b, p + b[p + 1], end, INTERRUPT_OVERRIDE), irq);
      LittleEndian(b, p + 4, n);
    }
    if k > 0 {
      assert forall i :: 0 <= i < |es| - 1 ==> es[1..][i] == es[i + 1];
      RemapsFirstOf(b, p + b[p + 1], end, es[1..], irq, k - 1, n);
    }
  }

  lemma {:induction false} NothingRemapped(b: seq<Byte>, p: nat, end: nat, es: seq<Entry>, irq: Word32)
    requires Holds(b, p, end, es) && WholeOverrides(es) && end + LARGEST_ENTRY <= |b|
    requires forall i :: 0 <= i < |es| ==> !Overrides(es[i], irq)
    ensures Remapped(b, Found(b, p, end, INTERRUPT_OVERRIDE), irq) == irq
    decreases |es|
  {
    hide Found, Holds, Stops, U32;
    HoldsStart(b, p, end, es);
    if es == [] {
      NothingFound(b, p, end, INTERRUPT_OVERRIDE);
    } else {
      HoldsRest(b, p, end, es);
      FoundStep(b, p, end, INTERRUPT_OVERRIDE);
      OverrideFields(b, p, es[0], irq);
      if b[p] == INTERRUPT_OVERRIDE {
        RemappedStep(b, p, Found(b, p + b[p + 1], end, INTERRUPT_OVERRIDE), irq);
      }
      assert forall i :: 0 <= i < |es| - 1 ==> es[1..][i] == es[i + 1];
      NothingRemapped(b, p + b[p + 1], end, es[1..], irq);
    }
  }

  /** `acpi_remap_irq` gives the interrupt in bytes 2 to 5, lowest first, of the first entry of type 2
      whose byte 1 is irq, else irq. */
  lemma RemapsFirst(b: seq<Byte>, p: nat, end: nat, es: seq<Entry>, irq: Word32, k: nat, n: Word32)
    requires Holds(b, p, end, es) && end + LARGEST_ENTRY <= |b|
    requires forall i :: 0 <= i < |es| && es[i].kind == 2 ==> |es[i].body| >= 6
    requires k <= |es| && (forall i :: 0 <= i < k && es[i].kind == 2 ==> es[i].body[1] != irq)
    requires k < |es| ==> es[k].kind == 2 && es[k].body[1] == irq
    ensures Remapped(b, Found(b, p, end, 2), irq) == n <==>
              if k < |es|
              then es[k].body[2..6] == [n % 0x100, n / 0x100 % 0x100, n / 0x1_0000 % 0x100, n / 0x100_0000]
              else n == irq
  {
    hide Found, Holds, Remapped;
    if k < |es| {
      RemapsFirstOf(b, p, end, es, irq, k, n);
    } else {
      NothingRemapped(b, p, end, es, irq);
    }
  }

  /** The cores `cpu_detect_cores` counts from boot are the local APIC entries `parse_madt` walks
      over exactly when there are at most 255 of them and all start before the shorter end. */
  lemma CoresCountedIff(b: seq<Byte>, length: Word32, es: seq<Entry>)
    requires Holds(b, 44, 44 * length, es)
    ensures var cpus := Found(b, 44, 44 * length, 0);
            Detected(0, |Found(b, 44, 44 * (length / 4), 0)|) == |OfKind(es, 0)| <==>
              |OfKind(es, 0)| <= 0xFF && forall j :: 0 <= j < |cpus| ==> cpus[j] < 44 * (length / 4)
  {
    hide Found, Holds, OfKind;
    FoundAreEntries(b, 44, 44 * length, es, 0);
    HoldsStart(b, 44, 44 * length, es);
    FoundBefore(b, 44, 44 * (length / 4), 44 * length, 0);
  }

  /** Cell i is one of the 16 and holds the id of processor entry i, whatever was there before. */
  ghost predicate CellHoldsId(b: seq<Byte>, found: seq<nat>, i: nat)
    requires forall j :: 0 <= j < |found| ==> found[j] + 2 < |b|
  {
    && i < 16 && i < |found|
    && forall before: seq<Byte> :: |before| == CELLS ==> StoredIds(b, found, before)[i] == b[found[i] + 2]
  }

  /** From boot, with the entries `cpu_detect_cores` counts up to its end and those `parse_madt`
      stores up to its own: every cell `cpu_wakeup_cores` reads holds the id of its processor
      entry exactly when the 8-bit count came out at 16 or less. */
  lemma WakeupReadsIdsIff(b: seq<Byte>, length: Word32)
    requires 44 * length + LARGEST_ENTRY <= |b|
    ensures var counted := Found(b, 44, 44 * (length / 4), 0);
            var stored := Found(b, 44, 44 * length, 0);
            |counted| % 0x100 <= 16 <==>
              forall i: nat :: i < Detected(0, |counted|) ==> CellHoldsId(b, stored, i)
  {
    hide Found;
    var counted, stored := Found(b, 44, 44 * (length / 4), 0), Found(b, 44, 44 * length, 0);
    FoundBefore(b, 44, 44 * (length / 4), 44 * length, 0);
    if |counted| % 0x100 > 16 {
      assert !CellHoldsId(b, stored, |counted| % 0x100 - 1);
    }
  }

  /** No cell behind the 16 is ever written exactly when there are at most 16 processor entries:
      the guard lets index 16 through, and none above. */
  lemma CellsSufficeIff(b: seq<Byte>, found: seq<nat>)
    requires forall j :: 0 <= j < |found| ==> found[j] + 2 < |b|
    ensures (forall before: seq<Byte> :: |before| == CELLS ==> StoredIds(b, found, before)[16..] == before[16..])
       <==> |found| <= 16
    ensures forall before: seq<Byte> :: |before| == CELLS ==> StoredIds(b, found, before)[17..] == before[17..]
  {
    if |found| > 16 {
      var other: Byte := if b[found[16] + 2] == 0 then 1 else 0;
      var before: seq<Byte> := seq(CELLS, _ => other);
      assert StoredIds(b, found, before)[16..][0] != before[16..][0];
    }
  }

  /** `parse_madt` and `cpu_detect_cores` see the same entries exactly when the shorter walk
      stops at a zero length or beyond the longer end. */
  lemma ParseAndDetectAgreeIff(b: seq<Byte>, length: Word32)
    requires 44 * length < |b|
    ensures var q := StopAt(b, 44, 44 * (length / 4));
            Cursors(b, 44, 44 * (length / 4)) == Cursors(b, 44, 44 * length) <==> q >= 44 * length || b[q + 1] == 0
  {
    WalksAgreeIff(b, 44, 44 * (length / 4), 44 * length);
  }

  /** The pointer arithmetic takes `parse_madt` 44 times the length of the table on, and
      `cpu_detect_cores` a quarter of that, which still covers the table. `parse_madt` visits only
      entries that start inside the table exactly when the walk up to the table's length stops at a
      zero length, or beyond even the scaled end. */
  lemma ParseStaysInTableIff(b: seq<Byte>, length: Word32)
    requires 44 * length < |b|
    ensures length >= 4 ==> length <= 44 * (length / 4)
    ensures var q, visited := StopAt(b, 44, length), Cursors(b, 44, 44 * length);
            (forall j :: 0 <= j < |visited| ==> visited[j] < length) <==> q >= 44 * length || b[q + 1] == 0
  {
    CursorsBeforeIff(b, 44, length, 44 * length);
  }
}
