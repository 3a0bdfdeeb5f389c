/** The physical frame allocator: the boot memory map is consumed in place, one frame at a time. */
module FrameAllocator {
  import opened Bits
  import opened PageWords

  const STIVALE2_MMAP_USABLE: Word32 := 1
  const STIVALE2_MMAP_BOOTLOADER_RECLAIMABLE: Word32 := 0x1000
  const STIVALE2_MMAP_KERNEL_AND_MODULES: Word32 := 0x1001

  datatype MmapEntry = MmapEntry(base: Word, length: Word, kind: Word32)

  predicate IsUsable(e: MmapEntry) {
    e.kind == STIVALE2_MMAP_USABLE && e.length > 0
  }

  /** The first entry `pmm_alloc` would take from, or |es|. */
  function FirstUsable(es: seq<MmapEntry>): (k: nat)
    ensures k <= |es|
    ensures forall i :: 0 <= i < k ==> !IsUsable(es[i])
    ensures k < |es| ==> IsUsable(es[k])
  {
    if es == [] || IsUsable(es[0]) then 0 else 1 + FirstUsable(es[1..])
  }

  /** One frame off the front of an entry, in 64-bit arithmetic. */
  function TakeFrame(e: MmapEntry): MmapEntry {
    e.(base := (e.base + 0x1000) % TWO_64, length := (e.length - 0x1000) % TWO_64)
  }

  /** `pmm_alloc`: the address handed out (0 is NULL) and the memory map afterwards. */
  function AllocStep(es: seq<MmapEntry>): (Word, seq<MmapEntry>) {
    var k := FirstUsable(es);
    if k == |es| then (0, es) else (es[k].base, es[k := TakeFrame(es[k])])
  }

  lemma FirstUsableIs(es: seq<MmapEntry>, k: nat)
    requires k <= |es| && forall i :: 0 <= i < k ==> !IsUsable(es[i])
    requires k < |es| ==> IsUsable(es[k])
    ensures FirstUsable(es) == k
  {
  }

  /** One call, field by field: it takes 0x1000 bytes off the front of the first entry of kind 1
      with a length, or changes nothing. */
  lemma AllocStepFields(es: seq<MmapEntry>, k: nat)
    requires k <= |es| && forall i :: 0 <= i < k ==> es[i].kind != 1 || es[i].length == 0
    requires k < |es| ==> es[k].kind == 1 && es[k].length > 0
    ensures k == |es| ==> AllocStep(es) == (0, es)
    ensures k < |es| ==>
              && AllocStep(es).0 == es[k].base
              && |AllocStep(es).1| == |es| && (forall i :: 0 <= i < |es| && i != k ==> AllocStep(es).1[i] == es[i])
              && AllocStep(es).1[k].kind == 1
              && AllocStep(es).1[k].base == (es[k].base + 0x1000) % 0x1_0000_0000_0000_0000
              && AllocStep(es).1[k].length == (es[k].length - 0x1000) % 0x1_0000_0000_0000_0000
  {
    FirstUsableIs(es, k);
  }

  function Top(e: MmapEntry): Word {
    (e.base + e.length) % TWO_64
  }

  /** The highest end of usable memory, 0 when there is none. */
  function MaxTop(es: seq<MmapEntry>): Word {
    if es == [] then 0
    else
      var rest := MaxTop(es[..|es| - 1]);
      var last := es[|es| - 1];
      if last.kind == STIVALE2_MMAP_USABLE && Top(last) > rest then Top(last) else rest
  }

  lemma {:induction false} BelowMaxTop(es: seq<MmapEntry>, i: nat)
    requires i < |es| && es[i].kind == 1
    ensures Top(es[i]) <= MaxTop(es)
  {
    if i < |es| - 1 {
      BelowMaxTop(es[..|es| - 1], i);
    }
  }

  lemma {:induction false} MaxTopAttained(es: seq<MmapEntry>) returns (i: nat)
    requires MaxTop(es) > 0
    ensures i < |es| && es[i].kind == 1 && Top(es[i]) == MaxTop(es)
  {
    var last := |es| - 1;
    if MaxTop(es[..last]) == MaxTop(es) {
      i := MaxTopAttained(es[..last]);
    } else {
      i := last;
    }
  }

  /** MaxTop is the maximum of the ends of the usable entries, in 64-bit arithmetic; an entry that
      does not wrap ends at or below it. */
  lemma MaxTopIsMaximum(es: seq<MmapEntry>)
    ensures forall i :: 0 <= i < |es| && es[i].kind == 1 ==>
              (es[i].base + es[i].length) % 0x1_0000_0000_0000_0000 <= MaxTop(es)
    ensures forall i :: 0 <= i < |es| && es[i].kind == 1 && es[i].base + es[i].length < 0x1_0000_0000_0000_0000 ==>
              es[i].base + es[i].length <= MaxTop(es)
    ensures (exists i :: 0 <= i < |es| && es[i].kind == 1) ==>
              exists i :: 0 <= i < |es| && es[i].kind == 1 &&
                          (es[i].base + es[i].length) % 0x1_0000_0000_0000_0000 == MaxTop(es)
  {
    hide MaxTop;
    forall i | 0 <= i < |es| && es[i].kind == 1
      ensures Top(es[i]) <= MaxTop(es)
    {
      BelowMaxTop(es, i);
    }
    if MaxTop(es) > 0 {
      var i := MaxTopAttained(es);
      assert Top(es[i]) == (es[i].base + es[i].length) % 0x1_0000_0000_0000_0000;
    }
  }

  class Pmm {
    const memmap: array<MmapEntry>
    const phys: array2<Word>            // phys[f, i]: the i-th word of frame f
    var highestFrameTop: Word

    ghost predicate Shaped()
      reads this
    {
      phys.Length0 == FRAMES && phys.Length1 == 512
    }

    /** The loop of `pmm_init`, without its output: the highest end of the usable entries, in
        64-bit arithmetic. */
    method FindTop()
      requires highestFrameTop == 0
      modifies this`highestFrameTop
      ensures highestFrameTop == MaxTop(memmap[..])
      ensures forall i :: 0 <= i < memmap.Length && memmap[i].kind == 1 ==>
                (memmap[i].base + memmap[i].length) % 0x1_0000_0000_0000_0000 <= highestFrameTop
      ensures (exists i :: 0 <= i < memmap.Length && memmap[i].kind == 1) ==>
                exists i :: 0 <= i < memmap.Length && memmap[i].kind == 1 &&
                            (memmap[i].base + memmap[i].length) % 0x1_0000_0000_0000_0000 == highestFrameTop
    {
      for i := 0 to memmap.Length
        invariant highestFrameTop == MaxTop(memmap[..i])
      {
        assert memmap[..i + 1][..i] == memmap[..i];
        var current := memmap[i];
        if current.kind != STIVALE2_MMAP_USABLE || current.kind == STIVALE2_MMAP_BOOTLOADER_RECLAIMABLE
           || current.kind == STIVALE2_MMAP_KERNEL_AND_MODULES {
          continue;
        }
        var top := (current.base + current.length) % TWO_64;
        if top > highestFrameTop {
          highestFrameTop := top;
        }
      }
      assert memmap[..memmap.Length] == memmap[..];
      MaxTopIsMaximum(memmap[..]);
    }

    constructor (memmap: array<MmapEntry>, phys: array2<Word>)
      requires phys.Length0 == FRAMES && phys.Length1 == 512
      ensures Shaped() && this.memmap == memmap && this.phys == phys
      ensures highestFrameTop == MaxTop(memmap[..])
    {
      this.memmap := memmap;
      this.phys := phys;
      highestFrameTop := 0;
      new;
      FindTop();
    }

    method Alloc() returns (ret: Word)
      modifies memmap
      ensures (ret, memmap[..]) == AllocStep(old(memmap[..]))
    {
      for i := 0 to memmap.Length
        invariant memmap[..] == old(memmap[..])
        invariant forall j :: 0 <= j < i ==> !IsUsable(memmap[j])
      {
        var current := memmap[i];
        if IsUsable(current) {
          assert FirstUsable(memmap[..]) == i;
          ret := current.base;
          memmap[i] := current.(base := (current.base + 0x1000) % TWO_64, length := (current.length - 0x1000) % TWO_64);
          return;
        }
      }
      return 0;
    }

    /** `memzero` on one page: clears the 512 words of a frame. */
    method ZeroFrame(f: nat)
      requires Shaped() && f < FRAMES
      modifies phys
      ensures forall p, i :: 0 <= p < FRAMES && 0 <= i < 512 ==>
                phys[p, i] == if p == f then 0 else old(phys[p, i])
    {
      for k := 0 to 512
        invariant forall p, i :: 0 <= p < FRAMES && 0 <= i < 512 ==>
                    phys[p, i] == if p == f && i < k then 0 else old(phys[p, i])
      {
        phys[f, k] := 0;
      }
    }

    /** Clears exactly the frame it returns, when that is a whole frame; the frame at address 0
        when no memory is left. */
    method AllocZ() returns (ret: Word)
      requires Shaped()
      modifies memmap, phys
      ensures (ret, memmap[..]) == AllocStep(old(memmap[..]))
      ensures ret == FrameIn(ret) * PAGE_SIZE ==>
                forall p, i :: 0 <= p < FRAMES && 0 <= i < 512 ==>
                  phys[p, i] == if p == FrameIn(ret) then 0 else old(phys[p, i])
    {
      ret := Alloc();
      ZeroFrame(FrameIn(ret));
    }
  }
}
