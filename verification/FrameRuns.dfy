/** What runs of `pmm_alloc` hand out. */
module FrameRuns {
  import opened Bits
  import opened PageWords
  import opened FrameAllocator

  /** The entries come in whole pages and do not wrap around. */
  ghost predicate WholePages(es: seq<MmapEntry>) {
    forall i :: 0 <= i < |es| && es[i].kind == STIVALE2_MMAP_USABLE ==>
      es[i].base % PAGE_SIZE == 0 && es[i].length % PAGE_SIZE == 0 && es[i].base + es[i].length < TWO_64
  }

  function RegionFrames(e: MmapEntry): seq<nat> {
    if e.kind != STIVALE2_MMAP_USABLE then []
    else seq(e.length / PAGE_SIZE, j requires 0 <= j => e.base / PAGE_SIZE + j)
  }

  /** The frames still to be handed out, in order. */
  function FreeFrames(es: seq<MmapEntry>): seq<nat> {
    if es == [] then [] else RegionFrames(es[0]) + FreeFrames(es[1..])
  }

  function TotalUsable(es: seq<MmapEntry>): nat {
    if es == [] then 0
    else (if es[0].kind == STIVALE2_MMAP_USABLE then es[0].length else 0) + TotalUsable(es[1..])
  }

  lemma ModSum(a: int, b: int, m: nat)
    requires m > 0
    ensures (a % m + b % m) % m == (a + b) % m
  {
    var q := a / m + b / m;
    assert a + b == a % m + b % m + m * q;
    ModMultiple(a % m + b % m, q, m);
  }

  /** Taking a frame keeps the end of an entry, even where the 64-bit arithmetic wraps. */
  lemma TakeKeepsTop(e: MmapEntry)
    ensures Top(TakeFrame(e)) == Top(e) && TakeFrame(e).kind == e.kind
  {
    ModSum(e.base + 0x1000, e.length - 0x1000, TWO_64);
  }

  lemma TakeNoWrap(e: MmapEntry)
    requires 0x1000 <= e.length && e.base + e.length < TWO_64
    ensures TakeFrame(e) == MmapEntry(e.base + 0x1000, e.length - 0x1000, e.kind)
  {
  }

  lemma RegionTail(e: MmapEntry)
    requires IsUsable(e) && e.base % PAGE_SIZE == 0 && e.length % PAGE_SIZE == 0 && e.base + e.length < TWO_64
    ensures RegionFrames(e) == [e.base / PAGE_SIZE] + RegionFrames(TakeFrame(e))
  {
    TakeNoWrap(e);
    hide TakeFrame;
    var e' := TakeFrame(e);
    assert e'.length / PAGE_SIZE == e.length / PAGE_SIZE - 1;
    assert e'.base / PAGE_SIZE == e.base / PAGE_SIZE + 1;
  }

  lemma WholeTail(es: seq<MmapEntry>)
    requires WholePages(es) && es != []
    ensures WholePages(es[1..])
  {
  }

  lemma {:induction false} NoneLeft(es: seq<MmapEntry>)
    requires WholePages(es)
    ensures FirstUsable(es) == |es| <==> TotalUsable(es) == 0
    ensures TotalUsable(es) == 0 <==> FreeFrames(es) == []
  {
    if es != [] {
      WholeTail(es);
      NoneLeft(es[1..]);
    }
  }

  lemma TakeFromHead(es: seq<MmapEntry>)
    requires WholePages(es) && es != [] && IsUsable(es[0])
    ensures var es' := es[0 := TakeFrame(es[0])];
            && FreeFrames(es) == [es[0].base / PAGE_SIZE] + FreeFrames(es')
            && TotalUsable(es) == 0x1000 + TotalUsable(es')
  {
    hide RegionFrames, TakeFrame;
    var e' := TakeFrame(es[0]);
    TakeNoWrap(es[0]);
    RegionTail(es[0]);
    var es' := es[0 := e'];
    assert es'[1..] == es[1..];
    assert FreeFrames(es') == RegionFrames(e') + FreeFrames(es[1..]);
  }

  /** Replacing an entry behind an unusable head. */
  lemma ReplaceDeeper(es: seq<MmapEntry>, k: nat, e: MmapEntry)
    requires 0 < k < |es| && !IsUsable(es[0])
    ensures FreeFrames(es[k := e]) == FreeFrames(es[1..][k - 1 := e])
    ensures TotalUsable(es[k := e]) == TotalUsable(es[1..][k - 1 := e])
  {
    assert es[k := e][1..] == es[1..][k - 1 := e];
    assert RegionFrames(es[0]) == [];
  }

  lemma {:induction false} TakeInOrder(es: seq<MmapEntry>, k: nat)
    requires WholePages(es) && k < |es| && k == FirstUsable(es)
    ensures var es' := es[k := TakeFrame(es[k])];
            && FreeFrames(es) == [es[k].base / PAGE_SIZE] + FreeFrames(es')
            && TotalUsable(es) == 0x1000 + TotalUsable(es')
  {
    if k == 0 {
      TakeFromHead(es);
    } else {
      WholeTail(es);
      assert es[1..][k - 1] == es[k];
      TakeInOrder(es[1..], k - 1);
      hide RegionFrames, TakeFrame, FreeFrames, TotalUsable, WholePages, FirstUsable;
      ReplaceDeeper(es, k, es[k]);
      ReplaceDeeper(es, k, TakeFrame(es[k]));
      assert es[k := es[k]] == es && es[1..][k - 1 := es[k]] == es[1..];
    }
  }

  lemma TakeKeepsWhole(es: seq<MmapEntry>, k: nat)
    requires WholePages(es) && k < |es| && IsUsable(es[k])
    ensures WholePages(es[k := TakeFrame(es[k])])
  {
    TakeNoWrap(es[k]);
    hide TakeFrame;
  }

  /** One call hands out the first free frame and leaves the others, in order, and takes
      0x1000 bytes off the usable length; it returns NULL and changes nothing exactly when
      no usable length is left. */
  lemma AllocTakesFirst(es: seq<MmapEntry>)
    requires WholePages(es)
    ensures var (ret, es') := AllocStep(es);
            && WholePages(es') && |es'| == |es|
            && (FirstUsable(es) == |es| <==> TotalUsable(es) == 0)
            && (TotalUsable(es) == 0 <==> FreeFrames(es) == [])
            && (TotalUsable(es) == 0 ==> ret == 0 && es' == es)
            && (TotalUsable(es) > 0 ==>
                  && ret == FreeFrames(es)[0] * PAGE_SIZE
                  && FreeFrames(es') == FreeFrames(es)[1..]
                  && TotalUsable(es') == TotalUsable(es) - 0x1000)
  {
    var k := FirstUsable(es);
    assert k < |es| ==> es[k].base == es[k].base / PAGE_SIZE * PAGE_SIZE;
    hide TakeFrame, WholePages, FreeFrames, TotalUsable, FirstUsable;
    NoneLeft(es);
    if k < |es| {
      TakeKeepsWhole(es, k);
      TakeInOrder(es, k);
    }
  }

  lemma {:induction false} FrameCount(es: seq<MmapEntry>)
    requires WholePages(es)
    ensures |FreeFrames(es)| * PAGE_SIZE == TotalUsable(es)
  {
    if es != [] {
      WholeTail(es);
      FrameCount(es[1..]);
    }
  }

  /** The results of the first n calls, as far as they succeed, and the memory map left. */
  function Results(es: seq<MmapEntry>, n: nat): seq<nat>
    decreases n
  {
    if n == 0 || FirstUsable(es) == |es| then []
    else [AllocStep(es).0] + Results(AllocStep(es).1, n - 1)
  }

  /** Runs hand out the free frames one by one; exactly total / 0x1000 calls succeed. */
  lemma {:induction false} RunHandsOutFrames(es: seq<MmapEntry>, n: nat)
    requires WholePages(es)
    ensures |Results(es, n)| == if n <= TotalUsable(es) / PAGE_SIZE then n else TotalUsable(es) / PAGE_SIZE
    ensures |Results(es, n)| <= |FreeFrames(es)|
    ensures forall j :: 0 <= j < |Results(es, n)| ==> Results(es, n)[j] == FreeFrames(es)[j] * PAGE_SIZE
    decreases n
  {
    hide TotalUsable, FreeFrames, WholePages, FirstUsable, AllocStep;
    FrameCount(es);
    if n > 0 {
      AllocTakesFirst(es);
      if FirstUsable(es) < |es| {
        RunHandsOutFrames(AllocStep(es).1, n - 1);
      }
    }
  }

  ghost predicate Inside(a: nat, e: MmapEntry) {
    e.kind == STIVALE2_MMAP_USABLE && e.base <= a && a + PAGE_SIZE <= e.base + e.length
  }

  /** Usable regions do not overlap. */
  ghost predicate Disjoint(es: seq<MmapEntry>) {
    forall i, j :: 0 <= i < |es| && 0 <= j < |es| && i != j && IsUsable(es[i]) && IsUsable(es[j]) ==>
      es[i].base + es[i].length <= es[j].base || es[j].base + es[j].length <= es[i].base
  }

  lemma {:induction false} FrameOfRegion(es: seq<MmapEntry>, j: nat) returns (k: nat)
    requires WholePages(es) && j < |FreeFrames(es)|
    ensures k < |es| && IsUsable(es[k]) && FreeFrames(es)[j] in RegionFrames(es[k])
    ensures Inside(FreeFrames(es)[j] * PAGE_SIZE, es[k])
  {
    var here := RegionFrames(es[0]);
    if j < |here| {
      k := 0;
      assert FreeFrames(es)[j] == here[j];
    } else {
      WholeTail(es);
      k := FrameOfRegion(es[1..], j - |here|);
      assert es[1..][k] == es[k + 1];
      k := k + 1;
    }
  }

  /** No frame is free twice. */
  lemma {:induction false} FreeFramesDistinct(es: seq<MmapEntry>)
    requires WholePages(es) && Disjoint(es)
    ensures forall i, j :: 0 <= i < j < |FreeFrames(es)| ==> FreeFrames(es)[i] != FreeFrames(es)[j]
  {
    if es != [] {
      var here, rest := RegionFrames(es[0]), FreeFrames(es[1..]);
      WholeTail(es);
      assert Disjoint(es[1..]) by {
        assert forall i :: 0 <= i < |es[1..]| ==> es[1..][i] == es[i + 1];
      }
      FreeFramesDistinct(es[1..]);
      forall i, j | 0 <= i < |here| && 0 <= j < |rest|
        ensures here[i] != rest[j]
      {
        var k := FrameOfRegion(es[1..], j);
        assert es[1..][k] == es[k + 1];
        assert IsUsable(es[0]) && Inside(here[i] * PAGE_SIZE, es[0]);
      }
    }
  }

  /** Allocation safety over whole runs: the results are distinct, page aligned, and each
      whole frame lies inside a region that was usable at boot. */
  lemma RunIsSafe(es: seq<MmapEntry>, n: nat)
    requires WholePages(es) && Disjoint(es)
    ensures forall i, j :: 0 <= i < j < |Results(es, n)| ==> Results(es, n)[i] != Results(es, n)[j]
    ensures forall i :: 0 <= i < |Results(es, n)| ==>
              Results(es, n)[i] % PAGE_SIZE == 0 && exists k :: 0 <= k < |es| && Inside(Results(es, n)[i], es[k])
  {
    hide TotalUsable, FreeFrames, WholePages, Disjoint;
    RunHandsOutFrames(es, n);
    FreeFramesDistinct(es);
    forall i | 0 <= i < |Results(es, n)|
      ensures exists k :: 0 <= k < |es| && Inside(Results(es, n)[i], es[k])
    {
      var k := FrameOfRegion(es, i);
    }
  }

  // ----- when the regions do not come in whole pages -----

  /** Every frame of every run lies inside a usable entry of the boot map. */
  ghost predicate NeverEscapes(es: seq<MmapEntry>, boot: seq<MmapEntry>) {
    forall n: nat, j :: 0 <= j < |Results(es, n)| ==> exists k :: 0 <= k < |boot| && Inside(Results(es, n)[j], boot[k])
  }

  /** es is what is left of boot: every entry kept its end. */
  ghost predicate LeftOf(es: seq<MmapEntry>, boot: seq<MmapEntry>) {
    && |es| == |boot|
    && forall i :: 0 <= i < |es| ==>
         && es[i].kind == boot[i].kind && boot[i].base <= es[i].base
         && es[i].base + es[i].length == boot[i].base + boot[i].length < TWO_64
  }

  lemma {:induction false} TakeLowersTotal(es: seq<MmapEntry>, k: nat)
    requires k < |es| && es[k].kind == STIVALE2_MMAP_USABLE
    requires es[k].length >= PAGE_SIZE && es[k].base + es[k].length < TWO_64
    ensures TotalUsable(es[k := TakeFrame(es[k])]) < TotalUsable(es)
  {
    TakeNoWrap(es[k]);
    hide TakeFrame;
    var es' := es[k := TakeFrame(es[k])];
    if k == 0 {
      assert es'[1..] == es[1..];
    } else {
      TakeLowersTotal(es[1..], k - 1);
      assert es'[1..] == es[1..][k - 1 := TakeFrame(es[1..][k - 1])];
    }
  }

  lemma TakeLeft(es: seq<MmapEntry>, boot: seq<MmapEntry>)
    requires LeftOf(es, boot) && FirstUsable(es) < |es| && es[FirstUsable(es)].length >= PAGE_SIZE
    ensures LeftOf(AllocStep(es).1, boot)
    ensures TotalUsable(AllocStep(es).1) < TotalUsable(es)
  {
    hide TakeFrame;
    TakeNoWrap(es[FirstUsable(es)]);
    TakeLowersTotal(es, FirstUsable(es));
  }

  /** A region that is not a multiple of a page long makes some call hand out a frame that
      reaches beyond the region's end. */
  lemma {:induction false} PartialRegionEscapes(es: seq<MmapEntry>, boot: seq<MmapEntry>, bad: nat)
    requires LeftOf(es, boot) && Disjoint(boot)
    requires bad < |es| && es[bad].kind == STIVALE2_MMAP_USABLE && es[bad].length % PAGE_SIZE != 0
    ensures !NeverEscapes(es, boot)
    decreases TotalUsable(es)
  {
    hide TakeFrame, TotalUsable;
    var k := FirstUsable(es);
    var (ret, es') := AllocStep(es);
    assert k <= bad;
    if es[k].length < PAGE_SIZE {
      assert Results(es, 1) == [ret] + Results(es', 0);
      assert Results(es, 1)[0] == ret;
      forall j | 0 <= j < |boot|
        ensures !Inside(ret, boot[j])
      {
      }
    } else {
      TakeLeft(es, boot);
      TakeNoWrap(es[k]);
      PartialRegionEscapes(es', boot, bad);
      var n: nat, j :| 0 <= j < |Results(es', n)| &&
                        !exists k :: 0 <= k < |boot| && Inside(Results(es', n)[j], boot[k]);
      assert Results(es, n + 1)[j + 1] == Results(es', n)[j];
    }
  }

  lemma TakeKeepsMultiples(es: seq<MmapEntry>, k: nat)
    requires k < |es| && IsUsable(es[k]) && es[k].base + es[k].length < TWO_64
    requires forall i :: 0 <= i < |es| && es[i].kind == STIVALE2_MMAP_USABLE ==> es[i].length % PAGE_SIZE == 0
    ensures var es' := es[k := TakeFrame(es[k])];
            forall i :: 0 <= i < |es'| && es'[i].kind == STIVALE2_MMAP_USABLE ==> es'[i].length % PAGE_SIZE == 0
  {
    TakeNoWrap(es[k]);
    hide TakeFrame;
  }

  lemma {:induction false} WholeRegionsStayInside(es: seq<MmapEntry>, boot: seq<MmapEntry>, n: nat, j: nat)
    requires LeftOf(es, boot) && j < |Results(es, n)|
    requires forall i :: 0 <= i < |es| && es[i].kind == STIVALE2_MMAP_USABLE ==> es[i].length % PAGE_SIZE == 0
    ensures exists k :: 0 <= k < |boot| && Inside(Results(es, n)[j], boot[k])
    decreases n
  {
    var k := FirstUsable(es);
    var es' := AllocStep(es).1;
    if j == 0 {
      hide TakeFrame;
      assert Inside(Results(es, n)[0], boot[k]);
    } else {
      TakeLeft(es, boot);
      TakeKeepsMultiples(es, k);
      hide TakeFrame, Inside, LeftOf, FirstUsable;
      WholeRegionsStayInside(es', boot, n - 1, j - 1);
    }
  }

  /** `pmm_alloc` stays inside usable memory over every run exactly when every usable
      length is a multiple of 0x1000: the last step of another length wraps around. */
  lemma AllocationSafeIff(boot: seq<MmapEntry>)
    requires Disjoint(boot) && forall i :: 0 <= i < |boot| ==> boot[i].base + boot[i].length < TWO_64
    ensures NeverEscapes(boot, boot) <==>
              forall i :: 0 <= i < |boot| && boot[i].kind == STIVALE2_MMAP_USABLE ==> boot[i].length % PAGE_SIZE == 0
  {
    assert LeftOf(boot, boot);
    if bad :| 0 <= bad < |boot| && boot[bad].kind == STIVALE2_MMAP_USABLE && boot[bad].length % PAGE_SIZE != 0 {
      PartialRegionEscapes(boot, boot, bad);
    } else {
      forall n: nat, j | 0 <= j < |Results(boot, n)|
        ensures exists k :: 0 <= k < |boot| && Inside(Results(boot, n)[j], boot[k])
      {
        WholeRegionsStayInside(boot, boot, n, j);
      }
    }
  }

  // ----- the highest usable address -----

  lemma AllocKeepsTops(es: seq<MmapEntry>)
    ensures var es' := AllocStep(es).1;
            |es'| == |es| && forall i :: 0 <= i < |es| ==> es'[i].kind == es[i].kind && Top(es'[i]) == Top(es[i])
  {
    hide TakeFrame, Top;
    if FirstUsable(es) < |es| {
      TakeKeepsTop(es[FirstUsable(es)]);
    }
  }

  lemma {:induction false} SameTops(es: seq<MmapEntry>, es': seq<MmapEntry>)
    requires |es'| == |es| && forall i :: 0 <= i < |es| ==> es'[i].kind == es[i].kind && Top(es'[i]) == Top(es[i])
    ensures MaxTop(es') == MaxTop(es)
  {
    if es != [] {
      SameTops(es[..|es| - 1], es'[..|es| - 1]);
    }
  }

  /** Allocation never moves the highest end, so the boot value stays the maximum. */
  lemma AllocKeepsMaxTop(es: seq<MmapEntry>)
    ensures MaxTop(AllocStep(es).1) == MaxTop(es)
  {
    AllocKeepsTops(es);
    SameTops(es, AllocStep(es).1);
  }
}
