/** `map_page` and `unmap_page` on the words of physical memory. */
module PageMapper {
  import opened Bits
  import opened Options
  import opened PageWords
  import opened FrameAllocator
  import FrameRuns
  import PageSpace
  import PageRuns
  import opened PageMemory

  ghost function Snapshot(pmm: Pmm): Memory
    reads pmm, pmm.phys
  {
    imap x: (nat, nat) | x.0 < pmm.phys.Length0 && x.1 < pmm.phys.Length1 :: pmm.phys[x.0, x.1] as nat
  }

  /** The memory map and the words of memory hold exactly the space s with its root at pml4. */
  ghost predicate Holds(mem: Memory, es: seq<MmapEntry>, pml4: Word, s: PageSpace.Space) {
    && PageSpace.Valid(s)
    && pml4 == s.tables[PageSpace.ROOT] * PAGE_SIZE
    && FrameRuns.WholePages(es)
    && s.free == FrameRuns.FreeFrames(es)
    && TablesStored(mem, s.tables)
    && PagesStored(mem, s.tables, s.pages)
  }

  /** An empty root table outside usable memory holds the space without pages, over every
      memory map of disjoint whole-page regions above frame 0 and below 2^48. */
  lemma EmptyRootHolds(mem: Memory, es: seq<MmapEntry>, root: nat)
    requires FrameRuns.WholePages(es) && FrameRuns.Disjoint(es)
    requires forall i :: 0 <= i < |es| && IsUsable(es[i]) ==>
              0 < es[i].base && es[i].base + es[i].length <= 0x1_0000_0000_0000
    requires 0 < root < FRAMES && root !in FrameRuns.FreeFrames(es) && forall i: nat :: At(mem, root, i) == 0
    ensures Holds(mem, es, root * PAGE_SIZE,
                  PageSpace.Space(map[PageSpace.ROOT := root], map[], FrameRuns.FreeFrames(es)))
  {
    hide FrameRuns.WholePages, FrameRuns.Disjoint, FrameRuns.FreeFrames, At, IsPresent;
    ZeroIsAbsent();
    var free := FrameRuns.FreeFrames(es);
    FrameRuns.FreeFramesDistinct(es);
    forall f | f in free
      ensures 0 < f < PAGES
    {
      var j: nat :| j < |free| && free[j] == f;
      var k := FrameRuns.FrameOfRegion(es, j);
    }
  }

  lemma EntryNames(f: nat, flags: nat)
    requires f < FRAMES && AddressIn(MakeEntry(f * PAGE_SIZE, flags)) == f * PAGE_SIZE
    ensures FrameIn(MakeEntry(f * PAGE_SIZE, flags)) == f
  {
    AddressInIsFrame(MakeEntry(f * PAGE_SIZE, flags));
  }

  lemma FirstFree(s: PageSpace.Space)
    requires PageSpace.Valid(s) && s.free != []
    ensures s.free[0] in s.free && s.free[0] !in s.free[1..]
    ensures forall f :: f in s.free <==> f == s.free[0] || f in s.free[1..]
  {
    assert s.free == [s.free[0]] + s.free[1..];
  }

  lemma InstallOnlyAdds(mem: Memory, s: PageSpace.Space, c: PageSpace.Node, f: nat, word: nat,
                        cleared: Memory, mem': Memory)
    requires PageSpace.Valid(s) && TablesStored(mem, s.tables) && s.free != [] && f == s.free[0]
    requires 1 <= c.level <= 3 && c !in s.tables && PageSpace.Parent(c) in s.tables
    requires Cleared(mem, f, cleared)
    requires Stored(cleared, s.tables[PageSpace.Parent(c)], PageSpace.SlotIndex(c), word, mem')
    ensures OnlyAdded(mem, s, mem', PageSpace.Install(s, c))
  {
    hide IsPresent, PageSpace.Parent, PageSpace.SlotIndex, PageSpace.Valid, PageRuns.AllFrames, FrameIn;
    PageRuns.InstallKeeps(s, c);
    FirstFree(s);
    assert !IsPresent(SlotOf(mem, s.tables, c));
  }

  lemma InstallLinks(s: PageSpace.Space, c: PageSpace.Node, cleared: Memory, f: nat, flags: nat, mem': Memory)
    requires s.free != [] && f == s.free[0] && c !in s.tables && PageSpace.Parent(c) in s.tables
    requires Stored(cleared, s.tables[PageSpace.Parent(c)], PageSpace.SlotIndex(c),
                    MakeEntry(f * PAGE_SIZE, flags), mem')
    ensures Linked(s, mem', PageSpace.Install(s, c), flags)
  {
  }

  lemma ClearedForInstall(mem: Memory, s: PageSpace.Space, f: nat, cleared: Memory)
    requires PageSpace.Valid(s) && f in s.free && Cleared(mem, f, cleared)
    requires TablesStored(mem, s.tables) && PagesStored(mem, s.tables, s.pages)
    ensures TablesStored(cleared, s.tables) && PagesStored(cleared, s.tables, s.pages)
    ensures OneTableEach(s.tables) && PageSpace.Closed(s.tables) && PageSpace.LeavesInTables(s.tables, s.pages)
    ensures (forall d :: d in s.tables ==> s.tables[d] != f) && forall i: nat :: At(cleared, f, i) == 0
  {
    hide PageSpace.Closed, PageSpace.LeavesInTables, TablesStored, PagesStored, At;
    ClearElsewhere(mem, s.tables, s.pages, f, cleared);
  }

  /** Taking a frame, clearing it and storing its entry installs the table. */
  lemma InstallHolds(mem: Memory, es: seq<MmapEntry>, pml4: Word, s: PageSpace.Space, c: PageSpace.Node,
                     flags: Word32, cleared: Memory, mem': Memory)
    requires Holds(mem, es, pml4, s) && flags % 2 == 1
    requires 1 <= c.level <= 3 && c !in s.tables && PageSpace.Parent(c) in s.tables
    requires Cleared(mem, FrameIn(AllocStep(es).0), cleared)
    requires Stored(cleared, s.tables[PageSpace.Parent(c)], PageSpace.SlotIndex(c),
                    MakeEntry(AllocStep(es).0, flags), mem')
    requires s.free != [] && AddressIn(MakeEntry(AllocStep(es).0, flags)) == AllocStep(es).0
    ensures AllocStep(es).0 == s.free[0] * PAGE_SIZE != 0
    ensures Holds(mem', AllocStep(es).1, pml4, PageSpace.Install(s, c))
    ensures Extends(mem, s, mem', PageSpace.Install(s, c), flags)
  {
    FrameRuns.AllocTakesFirst(es);
    var f := s.free[0];
    assert f in s.free;
    assert 0 < f < PAGES;
    PageSpace.FrameIsItsPage(f);
    EntryBits(f * PAGE_SIZE, flags);
    EntryNames(f, flags);
    PageRuns.InstallKeeps(s, c);
    ClearedForInstall(mem, s, f, cleared);
    hide PageSpace.Valid, IsPresent, FrameIn, MakeEntry, AddressIn, TablesStored, PagesStored, FrameRuns.WholePages,
         FrameRuns.FreeFrames, PageSpace.SlotIndex, PageSpace.Parent, AllocStep, Stored, At;
    InstallStored(cleared, s.tables, s.pages, c, f, MakeEntry(f * PAGE_SIZE, flags), mem');
    assert c != PageSpace.ROOT;
    InstallOnlyAdds(mem, s, c, f, MakeEntry(f * PAGE_SIZE, flags), cleared, mem');
    InstallLinks(s, c, cleared, f, flags, mem');
  }

  /** With no memory left NULL comes back and the memory map stays. */
  lemma NothingToTake(mem: Memory, es: seq<MmapEntry>, pml4: Word, s: PageSpace.Space)
    requires Holds(mem, es, pml4, s)
    ensures AllocStep(es).0 == (if s.free == [] then 0 else s.free[0] * PAGE_SIZE)
    ensures s.free == [] ==> AllocStep(es) == (0, es) && FirstUsable(es) == |es|
    ensures s.free != [] ==> AllocStep(es).0 != 0
  {
    FrameRuns.AllocTakesFirst(es);
    if s.free != [] {
      assert s.free[0] in s.free;
    }
  }

  lemma FrameAddress(mem: Memory, es: seq<MmapEntry>, pml4: Word, s: PageSpace.Space, t: nat)
    requires Holds(mem, es, pml4, s) && t == if s.free == [] then 0 else s.free[0] * PAGE_SIZE
    ensures t == FrameIn(t) * PAGE_SIZE
  {
    if s.free != [] {
      assert s.free[0] in s.free;
      PageSpace.FrameIsItsPage(s.free[0]);
    }
  }

  lemma SmallFlags(t: nat, flags: nat)
    requires t == FrameIn(t) * PAGE_SIZE && flags < PAGE_SIZE
    ensures AddressIn(MakeEntry(t, flags)) == t
  {
    EntryFields(t, flags);
    AddressInIsFrame(MakeEntry(t, flags));
  }

  lemma StoredSlot(mem: Memory, tables: map<PageSpace.Node, nat>, c: PageSpace.Node, word: nat, mem': Memory)
    requires PageSpace.Parent(c) in tables
    requires Stored(mem, tables[PageSpace.Parent(c)], PageSpace.SlotIndex(c), word, mem')
    ensures SlotOf(mem', tables, c) == word
  {
  }

  lemma TableInMemory(mem: Memory, es: seq<MmapEntry>, pml4: Word, s: PageSpace.Space, c: PageSpace.Node)
    requires Holds(mem, es, pml4, s) && c in s.tables
    ensures s.tables[c] < FRAMES && s.tables[c] * PAGE_SIZE / PAGE_SIZE == s.tables[c]
  {
  }

  /** Reading the slot of c tells whether the table is there, and where. */
  lemma SlotTells(mem: Memory, es: seq<MmapEntry>, pml4: Word, s: PageSpace.Space, c: PageSpace.Node)
    requires Holds(mem, es, pml4, s) && 1 <= c.level <= 3 && PageSpace.Parent(c) in s.tables
    ensures IsPresent(SlotOf(mem, s.tables, c)) <==> c in s.tables
    ensures c in s.tables ==> AddressIn(SlotOf(mem, s.tables, c)) == s.tables[c] * PAGE_SIZE
  {
    AddressInIsFrame(SlotOf(mem, s.tables, c));
  }

  /** Tables stay where they are during a recursive call. */
  lemma TablesStay(s: PageSpace.Space, addr: nat, flags: nat)
    requires PageSpace.Valid(s) && PageSpace.MapPage(s, addr, flags).Some?
    ensures var s' := PageSpace.MapPage(s, addr, flags).value;
            forall c :: c in s.tables ==> c in s'.tables && s'.tables[c] == s.tables[c]
  {
    PageRuns.ValidIsSmall(s);
    PageSpace.MapPageGrows(s, addr, flags);
  }

  /** The four indices select the slots on the path of a page. */
  lemma PathSlots(addr: nat)
    ensures var v := PageOf(addr);
            && PageSpace.Parent(PageSpace.NodeOf(v, 3)) == PageSpace.ROOT
            && PageSpace.Parent(PageSpace.NodeOf(v, 2)) == PageSpace.NodeOf(v, 3)
            && PageSpace.Parent(PageSpace.NodeOf(v, 1)) == PageSpace.NodeOf(v, 2)
            && PageSpace.Parent(PageSpace.Node(0, v)) == PageSpace.NodeOf(v, 1)
            && IndexAt(addr, 39) == PageSpace.SlotIndex(PageSpace.NodeOf(v, 3))
            && IndexAt(addr, 30) == PageSpace.SlotIndex(PageSpace.NodeOf(v, 2))
            && IndexAt(addr, 21) == PageSpace.SlotIndex(PageSpace.NodeOf(v, 1))
            && IndexAt(addr, 12) == PageSpace.SlotIndex(PageSpace.Node(0, v))
  {
    IndexDigits(addr);
    PageRuns.PathParents(PageOf(addr));
  }

  lemma LeafSlot(mem: Memory, s: PageSpace.Space, v: nat)
    requires PageSpace.Parent(PageSpace.Node(0, v)) in s.tables
    ensures SlotOf(mem, s.tables, PageSpace.Node(0, v)) ==
              At(mem, s.tables[PageSpace.Parent(PageSpace.Node(0, v))], PageSpace.SlotIndex(PageSpace.Node(0, v)))
  {
  }

  lemma LeafTells(mem: Memory, es: seq<MmapEntry>, pml4: Word, s: PageSpace.Space, v: nat)
    requires Holds(mem, es, pml4, s) && PageSpace.Parent(PageSpace.Node(0, v)) in s.tables
    ensures IsPresent(SlotOf(mem, s.tables, PageSpace.Node(0, v))) <==> v in s.pages
  {
  }

  lemma LeafOnlyAdds(mem: Memory, s: PageSpace.Space, addr: nat, flags: nat, mem': Memory)
    requires PageSpace.Valid(s) && PagesStored(mem, s.tables, s.pages)
    requires var c := PageSpace.Node(0, PageOf(addr));
             && PageSpace.Parent(c) in s.tables && c.region !in s.pages
             && Stored(mem, s.tables[PageSpace.Parent(c)], PageSpace.SlotIndex(c), MakeEntry(addr, flags), mem')
    ensures OnlyAdded(mem, s, mem', PageSpace.AddLeaf(s, addr, flags))
  {
    assert !IsPresent(SlotOf(mem, s.tables, PageSpace.Node(0, PageOf(addr))));
    hide IsPresent, PageSpace.Parent, PageSpace.SlotIndex, PageSpace.Valid, PagesStored, MakeEntry, PageOf;
  }

  lemma LeafHolds(mem: Memory, es: seq<MmapEntry>, pml4: Word, s: PageSpace.Space, addr: nat,
                  flags: Word32, mem': Memory)
    requires Holds(mem, es, pml4, s) && flags % 2 == 1
    requires var c := PageSpace.Node(0, PageOf(addr));
             && PageSpace.Parent(c) in s.tables && c.region !in s.pages
             && Stored(mem, s.tables[PageSpace.Parent(c)], PageSpace.SlotIndex(c), MakeEntry(addr, flags), mem')
    ensures Holds(mem', es, pml4, PageSpace.AddLeaf(s, addr, flags))
    ensures Extends(mem, s, mem', PageSpace.AddLeaf(s, addr, flags), flags)
  {
    LeafOnlyAdds(mem, s, addr, flags, mem');
    PathSlots(addr);
    EntryBits(addr, flags);
    PageRuns.AddLeafKeeps(s, addr, flags);
    assert OneTableEach(s.tables);
    hide PageSpace.Valid, IsPresent, MakeEntry, TablesStored, PagesStored, FrameRuns.WholePages,
         FrameRuns.FreeFrames, PageSpace.SlotIndex, PageSpace.Parent, PageSpace.NodeOf, PageOf, Stored, OneTableEach;
    LeafStored(mem, s.tables, s.pages, PageOf(addr), MakeEntry(addr, flags), mem');
  }

  lemma HoldsValid(mem: Memory, es: seq<MmapEntry>, pml4: Word, s: PageSpace.Space)
    requires Holds(mem, es, pml4, s)
    ensures PageSpace.Valid(s) && PageSpace.ROOT in s.tables && pml4 == s.tables[PageSpace.ROOT] * PAGE_SIZE
  {
  }

  lemma EntryInMemory(flags: Word32)
    ensures forall t: nat :: MakeEntry(t, flags) < TWO_64
  {
    forall t: nat
      ensures MakeEntry(t, flags) < TWO_64
    {
      EntryBits(t, flags);
    }
  }

  lemma HoldsParts(mem: Memory, es: seq<MmapEntry>, pml4: Word, s: PageSpace.Space)
    requires Holds(mem, es, pml4, s)
    ensures PageSpace.Valid(s) && TablesStored(mem, s.tables)
    ensures PagesStored(mem, s.tables, s.pages) && OneTableEach(s.tables)
    ensures PageSpace.ROOT in s.tables
  {
  }

  lemma ExtendsNoHuge(mem: Memory, s: PageSpace.Space, mem': Memory, s': PageSpace.Space, pml4: Word,
                      es': seq<MmapEntry>, es: seq<MmapEntry>, flags: Word32)
    requires Holds(mem, es, pml4, s) && Holds(mem', es', pml4, s')
    requires Extends(mem, s, mem', s', Present(flags))
    ensures NoHuge(mem, s.tables) && !IsHuge(flags) ==> NoHuge(mem', s'.tables)
  {
    PresentFlags(flags);
    HoldsParts(mem, es, pml4, s);
    HoldsParts(mem', es', pml4, s');
    if NoHuge(mem, s.tables) {
      NoHugeIff(mem, s, mem', s', Present(flags));
    }
  }

  /** No call of the run asks for large pages. */
  predicate SmallPages(ops: seq<PageRuns.Op>) {
    forall i :: 0 <= i < |ops| && ops[i].Map? ==> !IsHuge(ops[i].flags)
  }

  /** The flags of every call leave the address field alone. */
  predicate FlagsFit(ops: seq<PageRuns.Op>) {
    forall i :: 0 <= i < |ops| && ops[i].Map? ==> ops[i].flags < PAGE_SIZE
  }

  lemma UnmapKeepsOutside(mem: Memory, s: PageSpace.Space, es: seq<MmapEntry>, pml4: Word,
                          addr: nat, done: bool, mem': Memory)
    requires Holds(mem, es, pml4, s) && PageRuns.TableThere(s, addr)
    requires if done then addr % PAGE_SIZE == 0 && UnmapEffect(mem, pml4 / PAGE_SIZE, addr, mem') else mem' == mem
    ensures PageRuns.AllFrames(PageSpace.UnmapPage(s, addr)) == PageRuns.AllFrames(s)
    ensures KeptOutside(mem, PageRuns.AllFrames(s), mem')
  {
    HoldsParts(mem, es, pml4, s);
    TableInMemory(mem, es, pml4, s, PageSpace.ROOT);
    PageRuns.UnmapKeeps(s, addr);
    hide IsPresent, ClearedEntry, PageOf, BlindSlot, At, TablesStored, PageSpace.Valid, Holds, PageSpace.SlotIndex;
    if done {
      BlindSlotAgrees(mem, s, PageOf(addr));
      assert s.tables[PageSpace.NodeOf(PageOf(addr), 1)] in PageRuns.AllFrames(s);
    }
  }

  /** Unmapping an aligned page leaves words that represent the space without the page exactly
      when the page's table exists, the walk ends outside all tables, or it ends at an absent word. */
  lemma UnmapHoldsIff(mem: Memory, es: seq<MmapEntry>, pml4: Word, s: PageSpace.Space, addr: nat, mem': Memory)
    requires Holds(mem, es, pml4, s) && addr % PAGE_SIZE == 0
    requires UnmapEffect(mem, pml4 / PAGE_SIZE, addr, mem')
    ensures PageSpace.ROOT in s.tables
    ensures Holds(mem', es, pml4, PageSpace.UnmapPage(s, addr)) <==> EndsWell(mem, s.tables, PageOf(addr))
  {
    HoldsParts(mem, es, pml4, s);
    TableInMemory(mem, es, pml4, s, PageSpace.ROOT);
    PageRuns.UnmapKeeps(s, addr);
    hide PageSpace.Valid, TablesStored, PagesStored, FrameRuns.WholePages, FrameRuns.FreeFrames, PageOf,
         EndsWell, UnmapEffect;
    UnmapStoredIff(mem, s, addr, mem');
  }

  lemma HoldsSees(mem: Memory, es: seq<MmapEntry>, pml4: Word, s: PageSpace.Space, v: nat)
    requires Holds(mem, es, pml4, s) && NoHuge(mem, s.tables) && v < PAGES
    ensures Translate(mem, pml4 / PAGE_SIZE, v) == if v in s.pages then Page(s.pages[v]) else Fault
  {
    hide Translate, NoHuge;
    HoldsParts(mem, es, pml4, s);
    TableInMemory(mem, es, pml4, s, PageSpace.ROOT);
    TranslateAgrees(mem, s, v);
  }

  lemma ClearedWord()
    ensures forall a: nat :: ClearedEntry(a) < TWO_64
  {
    forall a: nat
      ensures ClearedEntry(a) < TWO_64
    {
      ClearedFields(a);
    }
  }

  lemma BlindStep(e: nat)
    ensures AddressIn(e) / PAGE_SIZE == FrameIn(e)
  {
    AddressInIsFrame(e);
  }

  lemma LevelOfNode(v: nat, level: nat)
    requires level <= 4
    ensures PageSpace.NodeOf(v, level).level == level
  {
  }

  lemma AlreadyPresent(flags: Word32)
    requires flags % 2 == 1
    ensures Present(flags) == flags
  {
    OrOne(flags);
  }

  lemma SameIsCleared(mem: Memory, addr: nat)
    ensures OnlyCleared(mem, addr / 0x1000 % 0x100_0000_0000 * 0x1000, mem)
  {
  }

  class Mapper {
    const pmm: Pmm
    const pml4: Word
    ghost var space: PageSpace.Space    // what the words represent

    ghost predicate Valid()
      reads this, pmm, pmm.phys, pmm.memmap
    {
      pmm.Shaped() && Holds(Snapshot(pmm), pmm.memmap[..], pml4, space)
    }

    constructor (pmm: Pmm, pml4: Word, ghost boot: PageSpace.Space)
      requires pmm.Shaped() && Holds(Snapshot(pmm), pmm.memmap[..], pml4, boot)
      ensures Valid() && this.pmm == pmm && this.pml4 == pml4 && space == boot
    {
      this.pmm := pmm;
      this.pml4 := pml4;
      space := boot;
    }

    /** A slot that should refer to the table at t, just taken, holds an entry that names another
        frame, or t is the address 0 of a failed allocation. */
    ghost predicate Derailed(t: nat, flags: nat)
      reads this, pmm, pmm.phys
    {
      && t == FrameIn(t) * PAGE_SIZE && (t != 0 ==> AddressIn(MakeEntry(t, flags)) != t)
      && exists c :: c !in space.tables && PageSpace.Parent(c) in space.tables &&
                     SlotOf(Snapshot(pmm), space.tables, c) == MakeEntry(t, flags)
    }

    /** The hardware's walk over the words translates exactly the pages of the space. */
    lemma HardwareSees(v: nat)
      requires Valid() && NoHuge(Snapshot(pmm), space.tables) && v < PAGES
      ensures Translate(Snapshot(pmm), pml4 / PAGE_SIZE, v) == if v in space.pages then Page(space.pages[v]) else Fault
    {
      hide Translate;
      HoldsSees(Snapshot(pmm), pmm.memmap[..], pml4, space, v);
    }

    /** A call came to the result the recursion on spaces gives, or stopped at a slot that does
        not refer to the table it should: with flags below 0x1000 only because the memory was
        used up and the recursion has no result. */
    ghost predicate CameTo(ok: bool, result: Option<PageSpace.Space>, flags: nat)
      reads this, pmm, pmm.phys, pmm.memmap
    {
      && pmm.Shaped()
      && (ok ==> result.Some? && Valid() && space == result.value)
      && (!ok && flags < PAGE_SIZE ==> result.None?)
      && (!ok ==> exists t: nat :: Derailed(t, flags) &&
                                   (t == 0 ==> result.None? && FirstUsable(pmm.memmap[..]) == pmm.memmap.Length))
    }

    /** The last block of `map_page`: fills the page's slot unless it is present. */
    method MapLeaf(pt: Word, index: nat, flags: Word32, addr: Word)
      requires Valid() && flags % 2 == 1
      requires var c := PageSpace.Node(0, PageOf(addr));
               && PageSpace.Parent(c) in space.tables && index == PageSpace.SlotIndex(c)
               && pt == space.tables[PageSpace.Parent(c)] * PAGE_SIZE
      modifies this`space, pmm.phys
      ensures Valid() && space == PageSpace.AddLeaf(old(space), addr, flags)
      ensures Extends(old(Snapshot(pmm)), old(space), Snapshot(pmm), space, flags)
    {
      hide Holds, IsPresent, MakeEntry, PageOf, SlotOf, PageSpace.Parent, PageSpace.SlotIndex, Extends;
      NothingAdded(Snapshot(pmm), space, flags);
      ghost var before, es, v := Snapshot(pmm), pmm.memmap[..], PageOf(addr);
      TableInMemory(before, es, pml4, space, PageSpace.Parent(PageSpace.Node(0, v)));
      LeafTells(before, es, pml4, space, v);
      LeafSlot(before, space, v);
      EntryInMemory(flags);
      if !IsPresent(pmm.phys[pt / PAGE_SIZE, index]) {
        pmm.phys[pt / PAGE_SIZE, index] := MakeEntry(addr, flags);
        assert Stored(before, pt / PAGE_SIZE, index, MakeEntry(addr, flags), Snapshot(pmm));
        LeafHolds(before, es, pml4, space, addr, flags, Snapshot(pmm));
        space := PageSpace.AddLeaf(space, addr, flags);
      }
    }

    /** `pmm_allocz` and `memzero`: the frame taken is clear and no other word has changed. */
    method TakeCleared() returns (t: Word)
      requires Valid()
      modifies pmm.memmap, pmm.phys
      ensures pmm.Shaped() && (t, pmm.memmap[..]) == AllocStep(old(pmm.memmap[..]))
      ensures Cleared(old(Snapshot(pmm)), FrameIn(t), Snapshot(pmm))
    {
      hide Holds, FrameIn, AllocStep;
      ghost var before, es := Snapshot(pmm), pmm.memmap[..];
      NothingToTake(before, es, pml4, space);
      FrameAddress(before, es, pml4, space, AllocStep(es).0);
      t := pmm.AllocZ();
      pmm.ZeroFrame(FrameIn(t));
    }

    /** Takes a cleared frame and stores its entry; the frame is 0 when no memory is left. */
    method InstallTable(table: Word, index: nat, flags: Word32, ghost c: PageSpace.Node) returns (t: Word)
      requires Valid() && flags % 2 == 1
      requires 1 <= c.level <= 3 && c !in space.tables && PageSpace.Parent(c) in space.tables
      requires index == PageSpace.SlotIndex(c) && table == space.tables[PageSpace.Parent(c)] * PAGE_SIZE
      modifies this, pmm.memmap, pmm.phys
      ensures pmm.Shaped() && t == if old(space).free == [] then 0 else old(space).free[0] * PAGE_SIZE
      ensures t == 0 <==> old(space).free == []
      ensures t == 0 ==> FirstUsable(pmm.memmap[..]) == pmm.memmap.Length
      ensures t != 0 && flags < PAGE_SIZE ==> AddressIn(MakeEntry(t, flags)) == t
      ensures t != 0 && AddressIn(MakeEntry(t, flags)) == t ==>
                Valid() && space == PageSpace.Install(old(space), c) &&
                Extends(old(Snapshot(pmm)), old(space), Snapshot(pmm), space, flags)
      ensures t == 0 || AddressIn(MakeEntry(t, flags)) != t ==> space == old(space) && Derailed(t, flags)
    {
      hide Holds, MakeEntry, AddressIn, FrameIn, PageSpace.Parent, PageSpace.SlotIndex, AllocStep, FirstUsable,
           SlotOf, Extends;
      ghost var before, es := Snapshot(pmm), pmm.memmap[..];
      TableInMemory(before, es, pml4, space, PageSpace.Parent(c));
      EntryInMemory(flags);
      NothingToTake(before, es, pml4, space);
      FrameAddress(before, es, pml4, space, AllocStep(es).0);
      t := TakeCleared();
      ghost var cleared := Snapshot(pmm);
      if flags < PAGE_SIZE { SmallFlags(t, flags); }
      pmm.phys[table / PAGE_SIZE, index] := MakeEntry(t, flags);
      assert Stored(cleared, table / PAGE_SIZE, index, MakeEntry(t, flags), Snapshot(pmm));
      if t != 0 && AddressIn(MakeEntry(t, flags)) == t {
        InstallHolds(before, es, pml4, space, c, flags, cleared, Snapshot(pmm));
        space := PageSpace.Install(space, c);
      } else {
        StoredSlot(cleared, space.tables, c, MakeEntry(t, flags), Snapshot(pmm));
      }
    }

    /** `map_page`. When an allocation returns NULL, or the flags have address bits that lead
        away from the frame taken, the source carries on with another table; the method stops
        there and returns false. */
    method MapPage(logical: Word, flags: Word32) returns (ok: bool)
      requires Valid()
      modifies this, pmm.memmap, pmm.phys
      ensures CameTo(ok, PageSpace.MapPage(old(space), logical, Present(flags)), Present(flags))
      ensures ok ==> Extends(old(Snapshot(pmm)), old(space), Snapshot(pmm), space, Present(flags))
      decreases |space.free|, 1
    {
      hide Holds, Present, IsPresent, AddressIn, MakeEntry, IndexAt, FirstUsable, PageOf, SlotOf, PageSpace.NodeOf,
           PageSpace.Parent, PageSpace.SlotIndex, PageSpace.EnsureTable, PageSpace.AddLeaf, PageSpace.Valid,
           Derailed, Snapshot, Extends;
      var addr := logical;
      PresentFlags(flags);
      var fl: Word32 := Present(flags);
      var pml4Idx := IndexAt(addr, 39);
      var pdptIdx := IndexAt(addr, 30);
      var pdIdx := IndexAt(addr, 21);
      var ptIdx := IndexAt(addr, 12);
      ghost var v := PageOf(addr);
      ghost var m, s := Snapshot(pmm), space;
      PathSlots(addr);
      HoldsValid(m, pmm.memmap[..], pml4, s);

      var pdpt, pdt, pt;
      ok, pdpt := EnsureTable(pml4, pml4Idx, fl, addr, 3);
      if ok {
        ghost var m3, s3 := Snapshot(pmm), space;
        HoldsValid(m3, pmm.memmap[..], pml4, s3);
        ok, pdt := EnsureTable(pdpt, pdptIdx, fl, addr, 2);
        if ok {
          ghost var m2, s2 := Snapshot(pmm), space;
          HoldsValid(m2, pmm.memmap[..], pml4, s2);
          ExtendsTrans(m, s, m3, s3, m2, s2, fl);
          ok, pt := EnsureTable(pdt, pdIdx, fl, addr, 1);
          if ok {
            ghost var m1, s1 := Snapshot(pmm), space;
            HoldsValid(m1, pmm.memmap[..], pml4, s1);
            ExtendsTrans(m, s, m2, s2, m1, s1, fl);
            MapLeaf(pt, ptIdx, fl, addr);
            ExtendsTrans(m, s, m1, s1, Snapshot(pmm), space, fl);
          }
        }
      }
    }

    /** One of the three blocks of `map_page`: install the next table when it is missing,
        then read its address back from the slot. */
    method EnsureTable(table: Word, index: nat, flags: Word32, ghost addr: Word, ghost level: nat)
      returns (ok: bool, next: Word)
      requires Valid() && flags % 2 == 1
      requires 1 <= level <= 3
      requires var c := PageSpace.NodeOf(PageOf(addr), level);
               && PageSpace.Parent(c) in space.tables && index == PageSpace.SlotIndex(c)
               && table == space.tables[PageSpace.Parent(c)] * PAGE_SIZE
      modifies this, pmm.memmap, pmm.phys
      ensures CameTo(ok, PageSpace.EnsureTable(old(space), addr, level, flags), flags)
      ensures ok ==> Extends(old(Snapshot(pmm)), old(space), Snapshot(pmm), space, flags)
      ensures ok ==> var c := PageSpace.NodeOf(PageOf(addr), level);
                     c in space.tables && next == space.tables[c] * PAGE_SIZE
      decreases |space.free|, 0
    {
      hide Holds, Present, IsPresent, AddressIn, MakeEntry, FirstUsable, PageSpace.NodeOf, PageOf, PageSpace.Parent,
           PageSpace.SlotIndex, PageSpace.MapPage, PageSpace.Valid, Extends, Derailed;
      next := 0;
      ghost var c := PageSpace.NodeOf(PageOf(addr), level);
      ghost var m, s := Snapshot(pmm), space;
      LevelOfNode(PageOf(addr), level);
      AlreadyPresent(flags);
      NothingAdded(m, s, flags);
      SlotTells(m, pmm.memmap[..], pml4, space, c);
      TableInMemory(m, pmm.memmap[..], pml4, space, PageSpace.Parent(c));
      if !IsPresent(pmm.phys[table / PAGE_SIZE, index]) {
        var t := InstallTable(table, index, flags, c);
        if t == 0 || AddressIn(MakeEntry(t, flags)) != t {
          assert Derailed(t, flags);
          return false, 0;
        }
        ghost var m1, s1 := Snapshot(pmm), space;
        HoldsValid(m1, pmm.memmap[..], pml4, s1);
        ok := MapPage(t, flags);
        if !ok { return; }
        TablesStay(s1, t, flags);
        ExtendsTrans(m, s, m1, s1, Snapshot(pmm), space, flags);
        SlotTells(Snapshot(pmm), pmm.memmap[..], pml4, space, c);
      }
      next := AddressIn(pmm.phys[table / PAGE_SIZE, index]);
      ok := true;
    }

    /** `unmap_page`, without the `invlpg`. The walk reads the words of the upper tables without
        testing them and changes at most the word it ends in. The page is gone from the space, and
        the words still represent the space exactly when the walk ends well. */
    method UnmapPage(logical: Word) returns (done: bool)
      requires Valid()
      modifies this`space, pmm.phys
      ensures done <==> logical % PAGE_SIZE == 0
      ensures !done ==> Snapshot(pmm) == old(Snapshot(pmm))
      ensures done ==> UnmapEffect(old(Snapshot(pmm)), pml4 / PAGE_SIZE, logical, Snapshot(pmm))
      ensures OnlyCleared(old(Snapshot(pmm)), logical / 0x1000 % 0x100_0000_0000 * 0x1000, Snapshot(pmm))
      ensures space == PageSpace.UnmapPage(old(space), logical)
      ensures PageSpace.ROOT in old(space).tables
      ensures Valid() <==> !done || EndsWell(old(Snapshot(pmm)), old(space).tables, PageOf(logical))
    {
      hide Holds, IsPresent, AddressIn, ClearedEntry, IndexAt, FrameIn, PageSpace.NodeOf, EndsWell, OnlyCleared;
      SameIsCleared(Snapshot(pmm), logical);
      ghost var mem, es := Snapshot(pmm), pmm.memmap[..];
      HoldsValid(mem, es, pml4, space);
      TableInMemory(mem, es, pml4, space, PageSpace.ROOT);
      var addr := logical;
      if addr % PAGE_SIZE != 0 { return false; }
      var pml4Idx := IndexAt(addr, 39);
      var pdptIdx := IndexAt(addr, 30);
      var pdIdx := IndexAt(addr, 21);
      var ptIdx := IndexAt(addr, 12);
      IndexDigits(addr);
      ClearedWord();

      BlindStep(pmm.phys[pml4 / PAGE_SIZE, pml4Idx]);
      var pdpt := AddressIn(pmm.phys[pml4 / PAGE_SIZE, pml4Idx]);
      BlindStep(pmm.phys[pdpt / PAGE_SIZE, pdptIdx]);
      var pdt := AddressIn(pmm.phys[pdpt / PAGE_SIZE, pdptIdx]);
      BlindStep(pmm.phys[pdt / PAGE_SIZE, pdIdx]);
      var pt := AddressIn(pmm.phys[pdt / PAGE_SIZE, pdIdx]);
      assert BlindSlot(mem, pml4 / PAGE_SIZE, PageOf(addr)) == (pt / PAGE_SIZE, ptIdx);
      if IsPresent(pmm.phys[pt / PAGE_SIZE, ptIdx]) {
        pmm.phys[pt / PAGE_SIZE, ptIdx] := ClearedEntry(addr);
        assert Stored(mem, pt / PAGE_SIZE, ptIdx, ClearedEntry(addr), Snapshot(pmm));
      }
      UnmapHoldsIff(mem, es, pml4, space, addr, Snapshot(pmm));
      UnmapWrites(mem, pml4 / PAGE_SIZE, addr, Snapshot(pmm));
      space := PageSpace.UnmapPage(space, addr);
      done := true;
    }

    /** A run of calls ends in the space that the run on spaces gives, the hardware sees exactly
        its pages, and no word outside the tables and the free frames of the start has changed. It
        stops where `MapPage` stops: with flags below 0x1000 only when a frame is missing. */
    method Execute(ops: seq<PageRuns.Op>) returns (ok: bool)
      requires Valid() && PageRuns.UnmapsThere(space, ops)
      modifies this, pmm.memmap, pmm.phys
      ensures ok ==> Valid() && PageRuns.Run(old(space), ops) == Some(space)
      ensures !ok && FlagsFit(ops) ==> PageRuns.Run(old(space), ops).None?
      ensures ok ==> PageRuns.AllFrames(space) == PageRuns.AllFrames(old(space))
      ensures ok ==> KeptOutside(old(Snapshot(pmm)), PageRuns.AllFrames(old(space)), Snapshot(pmm))
      ensures ok && NoHuge(old(Snapshot(pmm)), old(space).tables) && SmallPages(ops) ==>
                && NoHuge(Snapshot(pmm), space.tables)
                && forall v: nat :: v < PAGES ==>
                     Translate(Snapshot(pmm), pml4 / PAGE_SIZE, v) ==
                       if v in space.pages then Page(space.pages[v]) else Fault
      decreases |ops|
    {
      hide Holds, Present, IsHuge, PageSpace.MapPage, PageOf, UnmapEffect, Translate, Extends, NoHuge, Snapshot,
           PageRuns.AllFrames, KeptOutside;
      ghost var m, s := Snapshot(pmm), space;
      HoldsValid(m, pmm.memmap[..], pml4, s);
      ok := true;
      if ops != [] {
        match ops[0] {
          case Map(addr, flags) =>
            PresentFlags(flags);
            ok := MapPage(addr, flags);
            if !ok { return; }
            ExtendsNoHuge(m, s, Snapshot(pmm), space, pml4, pmm.memmap[..], old(pmm.memmap[..]), flags);
            ExtendsKeeps(m, s, Snapshot(pmm), space, Present(flags));
          case Unmap(addr) =>
            var done := UnmapPage(addr);
            UnmapKeepsOutside(m, s, old(pmm.memmap[..]), pml4, addr, done, Snapshot(pmm));
            if done && NoHuge(m, s.tables) {
              UnmapKeepsNoHuge(m, s.tables, pml4 / PAGE_SIZE, addr, Snapshot(pmm));
            }
        }
        assert PageRuns.Apply(s, ops[0]) == Some(space);
        ghost var m1 := Snapshot(pmm);
        ok := Execute(ops[1..]);
        if ok { OutsideTrans(m, PageRuns.AllFrames(s), m1, Snapshot(pmm)); }
      } else {
        OutsideSame(m, PageRuns.AllFrames(s));
        if NoHuge(m, s.tables) {
          forall v: nat | v < PAGES
            ensures Translate(m, pml4 / PAGE_SIZE, v) == if v in s.pages then Page(s.pages[v]) else Fault
          {
            HardwareSees(v);
          }
        }
      }
    }
  }

  // ----- what the hardware sees of a call -----

  lemma FreeKeepsTables(s: PageSpace.Space, addr: nat, flags: nat, s': PageSpace.Space)
    requires PageSpace.Mapped(s, addr, flags, s') && s'.free == s.free
    ensures s'.tables.Keys == s.tables.Keys
  {
    hide PageSpace.Path, PageSpace.LeafAdded, PageOf;
  }

  /** After a call every translation is as before, save that of the pages that faulted and are
      frames the call took, or the page of the address: they lead to the frames and the address. */
  lemma MapPageSeen(mem: Memory, es: seq<MmapEntry>, pml4: Word, s: PageSpace.Space, addr: nat, flags: Word32, n: nat,
                    mem': Memory, es': seq<MmapEntry>, s': PageSpace.Space, u: nat)
    requires Holds(mem, es, pml4, s) && NoHuge(mem, s.tables)
    requires PageSpace.MapPage(s, addr, flags) == Some(s') && PageRuns.Cost(s, addr, n)
    requires Holds(mem', es', pml4, s') && Extends(mem, s, mem', s', flags) && (!IsHuge(flags) || n == 0)
    requires u < PAGES
    ensures n <= |s.free|
    ensures var before := Translate(mem, pml4 / PAGE_SIZE, u);
            Translate(mem', pml4 / PAGE_SIZE, u) ==
              if before.Page? then before
              else if u in s.free[..n] then Page(MakeEntry(u * PAGE_SIZE, flags))
              else if u == PageOf(addr) then Page(MakeEntry(addr, flags))
              else Fault
  {
    hide Translate, Holds, NoHuge, IsHuge, MakeEntry, Extends, PageSpace.Valid, PageRuns.Cost, PageSpace.MapPage,
         PageOf,
         PageSpace.TablesGrown, PageSpace.FramesPlaced;
    HoldsParts(mem, es, pml4, s);
    HoldsParts(mem', es', pml4, s');
    NoHugeIff(mem, s, mem', s', flags);
    PageRuns.CostTaken(s, addr, flags, n);
    if n == 0 {
      FreeKeepsTables(s, addr, flags, s');
    }
    HoldsSees(mem, es, pml4, s, u);
    HoldsSees(mem', es', pml4, s', u);
  }

  /** With hosted tables the hardware translates every table frame the mapper allocated to itself. */
  lemma TablesSeen(mem: Memory, es: seq<MmapEntry>, pml4: Word, s: PageSpace.Space, boot: set<nat>, c: PageSpace.Node)
    requires Holds(mem, es, pml4, s) && NoHuge(mem, s.tables) && PageRuns.SelfHosted(s, boot)
    requires c in s.tables && s.tables[c] !in boot
    ensures var seen := Translate(mem, pml4 / PAGE_SIZE, s.tables[c]);
            seen.Page? && FrameIn(seen.entry) == s.tables[c]
  {
    hide Translate, NoHuge, FrameIn;
    assert s.tables[c] in s.pages && s.tables[c] < PAGES;
    HoldsSees(mem, es, pml4, s, s.tables[c]);
  }

  /** Where its walk ends well, unmapping an aligned page makes exactly this page fault. */
  lemma UnmapSeen(mem: Memory, es: seq<MmapEntry>, pml4: Word, s: PageSpace.Space, addr: nat, mem': Memory, u: nat)
    requires Holds(mem, es, pml4, s) && NoHuge(mem, s.tables) && addr % PAGE_SIZE == 0
    requires PageSpace.ROOT in s.tables && EndsWell(mem, s.tables, PageOf(addr))
    requires UnmapEffect(mem, pml4 / PAGE_SIZE, addr, mem') && u < PAGES
    ensures Translate(mem', pml4 / PAGE_SIZE, u) ==
              if u == PageOf(addr) then Fault else Translate(mem, pml4 / PAGE_SIZE, u)
  {
    hide Translate, Holds, NoHuge, PageOf, UnmapEffect, EndsWell;
    UnmapHoldsIff(mem, es, pml4, s, addr, mem');
    UnmapKeepsNoHuge(mem, s.tables, pml4 / PAGE_SIZE, addr, mem');
    HoldsSees(mem, es, pml4, s, u);
    HoldsSees(mem', es, pml4, PageSpace.UnmapPage(s, addr), u);
  }

  // ----- a walk that does not end well -----

  /** Root frame 1, tables 2, 3 and 4 of region 0, page 0 mapped to frame 9, and a word of
      frame 0 that names the root. */
  ghost function StrayMemory(): Memory {
    imap[(1, 0) := 0x2001, (2, 0) := 0x3001, (3, 0) := 0x4001, (4, 0) := 0x9001, (0, 0) := 0x1000]
  }

  ghost function StraySpace(): PageSpace.Space {
    PageSpace.Space(map[PageSpace.ROOT := 1, PageSpace.Node(3, 0) := 2,
                        PageSpace.Node(2, 0) := 3, PageSpace.Node(1, 0) := 4],
                    map[0 := 0x9001], [])
  }

  lemma StrayWords()
    ensures IsPresent(0x2001) && IsPresent(0x3001) && IsPresent(0x4001) && IsPresent(0x9001)
    ensures !IsPresent(0) && !IsPresent(0x1000)
  {
    hide And;
    PresentIsOdd(0x2001);
    PresentIsOdd(0x3001);
    PresentIsOdd(0x4001);
    PresentIsOdd(0x9001);
    PresentIsOdd(0);
    PresentIsOdd(0x1000);
  }

  lemma StrayTables()
    ensures var s := StraySpace();
            && (forall c :: c in s.tables <==> c.region == 0 && 1 <= c.level <= 4)
            && (forall c :: c in s.tables ==> s.tables[c] == 5 - c.level)
            && (forall v :: v in s.pages <==> v == 0) && s.pages[0] == 0x9001 && s.free == []
  {
  }

  lemma StrayValid()
    ensures PageSpace.Valid(StraySpace()) && PageSpace.ROOT in StraySpace().tables
  {
    StrayTables();
    hide StraySpace;
    assert forall c :: c in StraySpace().tables && c != PageSpace.ROOT ==> PageSpace.Parent(c) in StraySpace().tables;
  }

  lemma StraySlot(c: PageSpace.Node)
    requires PageSpace.Parent(c) in StraySpace().tables
    ensures c.level <= 3
    ensures SlotOf(StrayMemory(), StraySpace().tables, c) ==
              if c.region != 0 then 0 else if c.level == 0 then 0x9001 else (5 - c.level) * 0x1000 + 1
  {
    StrayTables();
    hide StraySpace;
    assert c.region < 512;
  }

  lemma StrayFrames()
    ensures FrameIn(0) == 0 && FrameIn(0x1000) == 1
    ensures FrameIn(0x2001) == 2 && FrameIn(0x3001) == 3 && FrameIn(0x4001) == 4
    ensures !IsHuge(0x2001) && !IsHuge(0x3001) && !IsHuge(0x4001)
    ensures PageOf(0x80_0000_0000) == 0x800_0000
  {
  }

  lemma StrayEntry(c: PageSpace.Node)
    requires PageSpace.Parent(c) in StraySpace().tables
    ensures c in StraySpace().tables <==> IsPresent(SlotOf(StrayMemory(), StraySpace().tables, c)) && c.level > 0
    ensures c in StraySpace().tables ==>
              FrameIn(SlotOf(StrayMemory(), StraySpace().tables, c)) == StraySpace().tables[c] &&
              !IsHuge(SlotOf(StrayMemory(), StraySpace().tables, c))
    ensures c.level == 0 ==>
              (c.region in StraySpace().pages <==> IsPresent(SlotOf(StrayMemory(), StraySpace().tables, c)))
    ensures c.level == 0 && c.region in StraySpace().pages ==>
              StraySpace().pages[c.region] == SlotOf(StrayMemory(), StraySpace().tables, c)
  {
    StrayTables();
    StraySlot(c);
    StrayFrames();
    StrayWords();
    hide IsPresent, IsHuge, FrameIn, PageSpace.Parent, StrayMemory, SlotOf, StraySpace;
    if c.region == 0 && c.level == 3 {
    } else if c.region == 0 && c.level == 2 {
    }
  }

  lemma StrayHolds()
    ensures Holds(StrayMemory(), [], 0x1000, StraySpace()) && NoHuge(StrayMemory(), StraySpace().tables)
  {
    hide IsPresent, IsHuge, FrameIn, PageSpace.Valid, PageSpace.Parent, StrayMemory, SlotOf, StraySpace;
    StrayValid();
    StrayTables();
    forall c: PageSpace.Node | PageSpace.Parent(c) in StraySpace().tables {
      StrayEntry(c);
    }
  }

  /** The word the walk for the page at 2^39 ends in, cleared. */
  ghost function StrayAfter(): Memory {
    StrayMemory()[(2, 0) := ClearedEntry(0x80_0000_0000)]
  }

  lemma StrayWalks()
    ensures Stored(StrayMemory(), 2, 0, ClearedEntry(0x80_0000_0000), StrayAfter())
    ensures BlindSlot(StrayMemory(), 1, 0x800_0000) == (2, 0) && At(StrayMemory(), 2, 0) == 0x3001
    ensures Translate(StrayMemory(), 1, 0) == Page(0x9001) && Translate(StrayAfter(), 1, 0) == Fault
  {
    hide IsPresent, IsHuge, ClearedEntry, FrameIn, PageOf;
    StrayWords();
    StrayFrames();
    ClearedFields(0x80_0000_0000);
    var mem := StrayMemory();
    assert At(mem, 1, 1) == 0 && At(mem, 0, 0) == 0x1000 && At(mem, 1, 0) == 0x2001 && At(mem, 2, 0) == 0x3001
        && At(mem, 3, 0) == 0x4001 && At(mem, 4, 0) == 0x9001;
    assert Stored(mem, 2, 0, ClearedEntry(0x80_0000_0000), StrayAfter());
    hide StrayMemory, StrayAfter, At;
    assert At(StrayAfter(), 1, 0) == 0x2001 && At(StrayAfter(), 2, 0) == ClearedEntry(0x80_0000_0000);
  }

  /** Unmapping the page at 2^39, whose upper tables are missing, clears the entry of a table:
      the words no longer represent the space, and page 0, which was mapped, faults. */
  lemma UnmapLosesOtherPage()
    ensures Holds(StrayMemory(), [], 0x1000, StraySpace()) && NoHuge(StrayMemory(), StraySpace().tables)
    ensures UnmapEffect(StrayMemory(), 1, 0x80_0000_0000, StrayAfter())
    ensures !Holds(StrayAfter(), [], 0x1000, PageSpace.UnmapPage(StraySpace(), 0x80_0000_0000))
    ensures Translate(StrayMemory(), 1, 0) == Page(0x9001) && Translate(StrayAfter(), 1, 0) == Fault
  {
    hide IsPresent, ClearedEntry, Translate, Holds, NoHuge, BlindSlot, StrayMemory, StrayAfter, Stored;
    StrayWords();
    StrayHolds();
    StrayWalks();
    var mem := StrayMemory();
    assert PageOf(0x80_0000_0000) == 0x800_0000;
    assert StraySpace().tables[PageSpace.Node(3, 0)] == 2;
    UnmapHoldsIff(mem, [], 0x1000, StraySpace(), 0x80_0000_0000, StrayAfter());
  }
}
