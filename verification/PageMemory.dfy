/** How the words of memory represent a space, and what one store does to it. */
module PageMemory {
  import opened Bits
  import opened PageWords
  import opened PageSpace
  import opened PageRuns

  /** A snapshot of physical memory: the words of every frame. */
  type Memory = imap<(nat, nat), nat>

  ghost function At(mem: Memory, frame: nat, index: nat): nat {
    if (frame, index) in mem then mem[(frame, index)] else 0
  }

  /** The word that decides whether c is there: the slot of its parent table. */
  ghost function SlotOf(mem: Memory, tables: map<Node, nat>, c: Node): nat
    requires Parent(c) in tables
  {
    At(mem, tables[Parent(c)], SlotIndex(c))
  }

  ghost predicate TablesStored(mem: Memory, tables: map<Node, nat>) {
    forall c: Node :: 1 <= c.level <= 3 && Parent(c) in tables ==>
      && (c in tables <==> IsPresent(SlotOf(mem, tables, c)))
      && (c in tables ==> FrameIn(SlotOf(mem, tables, c)) == tables[c])
  }

  /** No entry that refers to a table has the page-size bit, so the hardware follows them all. */
  ghost predicate NoHuge(mem: Memory, tables: map<Node, nat>) {
    forall c: Node :: c in tables && Parent(c) in tables ==> !IsHuge(SlotOf(mem, tables, c))
  }

  ghost predicate PagesStored(mem: Memory, tables: map<Node, nat>, pages: map<nat, nat>) {
    forall v: nat :: Parent(Node(0, v)) in tables ==>
      && (v in pages <==> IsPresent(SlotOf(mem, tables, Node(0, v))))
      && (v in pages ==> pages[v] == SlotOf(mem, tables, Node(0, v)))
  }

  ghost predicate Cleared(mem: Memory, frame: nat, mem': Memory) {
    forall p: nat, i: nat :: At(mem', p, i) == if p == frame then 0 else At(mem, p, i)
  }

  ghost predicate Stored(mem: Memory, frame: nat, index: nat, word: nat, mem': Memory) {
    forall p: nat, i: nat :: At(mem', p, i) == if p == frame && i == index then word else At(mem, p, i)
  }

  ghost predicate OneTableEach(tables: map<Node, nat>) {
    forall c, d :: c in tables && d in tables && tables[c] == tables[d] ==> c == d
  }

  lemma ZeroIsAbsent()
    ensures !IsPresent(0)
  {
    assert And(0, PAGE_BIT_P_PRESENT) == 0;
  }

  /** Clearing a frame that is no table disturbs nothing. */
  lemma ClearElsewhere(mem: Memory, tables: map<Node, nat>, pages: map<nat, nat>, frame: nat, mem': Memory)
    requires TablesStored(mem, tables) && PagesStored(mem, tables, pages)
    requires Cleared(mem, frame, mem') && forall c :: c in tables ==> tables[c] != frame
    ensures TablesStored(mem', tables) && PagesStored(mem', tables, pages)
  {
    hide IsPresent, FrameIn, SlotIndex, Parent, At;
  }

  lemma SlotApart(c: Node, d: Node)
    requires c != d
    ensures Parent(c) != Parent(d) || SlotIndex(c) != SlotIndex(d)
  {
  }

  /** Storing in the slot of c changes no other slot. */
  lemma StoreChangesOneSlot(mem: Memory, tables: map<Node, nat>, c: Node, word: nat, mem': Memory, d: Node)
    requires OneTableEach(tables) && Parent(c) in tables && Parent(d) in tables
    requires Stored(mem, tables[Parent(c)], SlotIndex(c), word, mem')
    ensures SlotOf(mem', tables, d) == if d == c then word else SlotOf(mem, tables, d)
  {
    if d != c {
      SlotApart(c, d);
    }
  }

  /** The slots after installing a cleared frame for c: one new word, an empty new table. */
  lemma InstallSlot(mem: Memory, tables: map<Node, nat>, c: Node, frame: nat, word: nat, mem': Memory, d: Node)
    requires OneTableEach(tables) && Parent(c) in tables && Parent(d) in tables[c := frame] && c !in tables
    requires (forall e :: e in tables ==> tables[e] != frame) && forall i: nat :: At(mem, frame, i) == 0
    requires Stored(mem, tables[Parent(c)], SlotIndex(c), word, mem')
    ensures SlotOf(mem', tables[c := frame], d) ==
              if Parent(d) == c then 0 else if d == c then word else SlotOf(mem, tables, d)
  {
    if Parent(d) != c {
      StoreChangesOneSlot(mem, tables, c, word, mem', d);
    }
  }

  /** A missing table has no tables and no pages below it. */
  lemma NothingBelow(tables: map<Node, nat>, pages: map<nat, nat>, c: Node)
    requires Closed(tables) && LeavesInTables(tables, pages) && c !in tables && c.level <= 3
    ensures c != Parent(c)
    ensures forall d: Node :: Parent(d) == c ==> d !in tables
    ensures forall v: nat :: Parent(Node(0, v)) == c ==> v !in pages
  {
  }

  /** Storing a table entry for a cleared frame installs the table. */
  lemma InstallStored(mem: Memory, tables: map<Node, nat>, pages: map<nat, nat>,
                      c: Node, frame: nat, word: nat, mem': Memory)
    requires TablesStored(mem, tables) && PagesStored(mem, tables, pages)
    requires OneTableEach(tables) && Closed(tables) && LeavesInTables(tables, pages)
    requires 1 <= c.level <= 3 && Parent(c) in tables && c !in tables
    requires (forall d :: d in tables ==> tables[d] != frame) && forall i: nat :: At(mem, frame, i) == 0
    requires Stored(mem, tables[Parent(c)], SlotIndex(c), word, mem')
    requires IsPresent(word) && FrameIn(word) == frame
    ensures TablesStored(mem', tables[c := frame]) && PagesStored(mem', tables[c := frame], pages)
  {
    hide IsPresent, FrameIn, SlotOf, Parent, Closed, Stored, OneTableEach, LeavesInTables, At;
    ZeroIsAbsent();
    NothingBelow(tables, pages, c);
    var tables' := tables[c := frame];
    forall d: Node | Parent(d) in tables'
      ensures SlotOf(mem', tables', d) ==
                if Parent(d) == c then 0 else if d == c then word else SlotOf(mem, tables, d)
    {
      InstallSlot(mem, tables, c, frame, word, mem', d);
    }
  }

  /** Storing a present word in the slot of a page maps it. */
  lemma LeafStored(mem: Memory, tables: map<Node, nat>, pages: map<nat, nat>, v: nat, word: nat, mem': Memory)
    requires TablesStored(mem, tables) && PagesStored(mem, tables, pages) && OneTableEach(tables)
    requires Parent(Node(0, v)) in tables && IsPresent(word)
    requires Stored(mem, tables[Parent(Node(0, v))], SlotIndex(Node(0, v)), word, mem')
    ensures TablesStored(mem', tables) && PagesStored(mem', tables, pages[v := word])
  {
    hide IsPresent, FrameIn, Parent, SlotIndex;
    forall d: Node | Parent(d) in tables
      ensures SlotOf(mem', tables, d) == if d == Node(0, v) then word else SlotOf(mem, tables, d)
    {
      StoreChangesOneSlot(mem, tables, Node(0, v), word, mem', d);
    }
  }

  /** Storing an absent word in the slot of a page unmaps it. */
  lemma LeafCleared(mem: Memory, tables: map<Node, nat>, pages: map<nat, nat>, v: nat, word: nat, mem': Memory)
    requires TablesStored(mem, tables) && PagesStored(mem, tables, pages) && OneTableEach(tables)
    requires Parent(Node(0, v)) in tables && !IsPresent(word)
    requires Stored(mem, tables[Parent(Node(0, v))], SlotIndex(Node(0, v)), word, mem')
    ensures TablesStored(mem', tables) && PagesStored(mem', tables, pages - {v})
  {
    hide IsPresent, FrameIn, Parent, SlotIndex;
    forall d: Node | Parent(d) in tables
      ensures SlotOf(mem', tables, d) == if d == Node(0, v) then word else SlotOf(mem, tables, d)
    {
      StoreChangesOneSlot(mem, tables, Node(0, v), word, mem', d);
    }
  }

  // ----- what a call leaves alone -----

  /** Frames are neither lost nor freed. */
  ghost predicate Progress(s: Space, s': Space) {
    AllFrames(s') == AllFrames(s) && forall f :: f in s'.free ==> f in s.free
  }

  /** No word outside these frames differs. */
  ghost predicate KeptOutside(mem: Memory, frames: set<nat>, mem': Memory) {
    forall p: nat, i: nat :: p !in frames ==> At(mem', p, i) == At(mem, p, i)
  }

  lemma OutsideSame(mem: Memory, frames: set<nat>)
    ensures KeptOutside(mem, frames, mem)
  {
  }

  lemma OutsideTrans(mem: Memory, frames: set<nat>, mem1: Memory, mem2: Memory)
    requires KeptOutside(mem, frames, mem1) && KeptOutside(mem1, frames, mem2)
    ensures KeptOutside(mem, frames, mem2)
  {
    hide At;
  }

  /** Only absent words of tables and the frames taken may differ. */
  ghost predicate OnlyAdded(mem: Memory, s: Space, mem': Memory, s': Space) {
    && Progress(s, s')
    && forall p: nat, i: nat ::
         (p in s.free ==> p in s'.free) && (p in s.tables.Values ==> IsPresent(At(mem, p, i))) ==>
         At(mem', p, i) == At(mem, p, i)
  }

  /** Tables stay in place, and every new one hangs in its slot by an entry with these flags. */
  ghost predicate Linked(s: Space, mem': Memory, s': Space, flags: nat) {
    && (forall c :: c in s.tables ==> c in s'.tables && s'.tables[c] == s.tables[c])
    && forall c :: c in s'.tables && c !in s.tables ==>
         Parent(c) in s'.tables && SlotOf(mem', s'.tables, c) == MakeEntry(s'.tables[c] * PAGE_SIZE, flags)
  }

  /** What a call leaves alone and what it adds. */
  ghost predicate Extends(mem: Memory, s: Space, mem': Memory, s': Space, flags: nat) {
    OnlyAdded(mem, s, mem', s') && Linked(s, mem', s', flags)
  }

  lemma ExtendsKeeps(mem: Memory, s: Space, mem': Memory, s': Space, flags: nat)
    requires Extends(mem, s, mem', s', flags)
    ensures AllFrames(s') == AllFrames(s) && KeptOutside(mem, AllFrames(s), mem')
  {
    hide At, Linked, IsPresent;
  }

  lemma NothingAdded(mem: Memory, s: Space, flags: nat)
    ensures Extends(mem, s, mem, s, flags)
  {
  }

  /** A present word of a table is never overwritten. */
  lemma WordKept(mem: Memory, s: Space, mem': Memory, s': Space, c: Node, i: nat)
    requires Valid(s) && OnlyAdded(mem, s, mem', s') && c in s.tables && IsPresent(At(mem, s.tables[c], i))
    ensures At(mem', s.tables[c], i) == At(mem, s.tables[c], i)
  {
    assert s.tables[c] !in s.free;
  }

  /** The entry of a table that is linked stays. */
  lemma LinkKept(mem1: Memory, s1: Space, mem2: Memory, s2: Space, c: Node, flags: Word32)
    requires flags % 2 == 1 && Valid(s1) && OnlyAdded(mem1, s1, mem2, s2)
    requires c in s1.tables && Parent(c) in s1.tables
    requires forall d :: d in s1.tables ==> d in s2.tables && s2.tables[d] == s1.tables[d]
    requires SlotOf(mem1, s1.tables, c) == MakeEntry(s1.tables[c] * PAGE_SIZE, flags)
    ensures SlotOf(mem2, s2.tables, c) == MakeEntry(s2.tables[c] * PAGE_SIZE, flags)
  {
    hide MakeEntry, IsPresent, At, OnlyAdded, Valid, IsHuge, FrameIn, Or;
    EntryBits(s1.tables[c] * PAGE_SIZE, flags);
    WordKept(mem1, s1, mem2, s2, Parent(c), SlotIndex(c));
  }

  lemma LinkedTrans(s: Space, mem1: Memory, s1: Space, mem2: Memory, s2: Space, flags: Word32)
    requires flags % 2 == 1 && Valid(s1)
    requires Linked(s, mem1, s1, flags) && OnlyAdded(mem1, s1, mem2, s2) && Linked(s1, mem2, s2, flags)
    ensures Linked(s, mem2, s2, flags)
  {
    hide MakeEntry, Parent, OnlyAdded, Valid, SlotOf;
    forall c | c in s2.tables && c !in s.tables
      ensures Parent(c) in s2.tables && SlotOf(mem2, s2.tables, c) == MakeEntry(s2.tables[c] * PAGE_SIZE, flags)
    {
      if c in s1.tables {
        LinkKept(mem1, s1, mem2, s2, c, flags);
      }
    }
  }

  lemma OnlyAddedTrans(mem: Memory, s: Space, mem1: Memory, s1: Space, mem2: Memory, s2: Space)
    requires Valid(s1) && OnlyAdded(mem, s, mem1, s1) && OnlyAdded(mem1, s1, mem2, s2)
    ensures OnlyAdded(mem, s, mem2, s2)
  {
    forall p: nat, i: nat | (p in s.free ==> p in s2.free) && (p in s.tables.Values ==> IsPresent(At(mem, p, i)))
      ensures At(mem2, p, i) == At(mem, p, i)
    {
      hide At, IsPresent;
      assert At(mem1, p, i) == At(mem, p, i);
    }
  }

  lemma ExtendsTrans(mem: Memory, s: Space, mem1: Memory, s1: Space, mem2: Memory, s2: Space, flags: Word32)
    requires flags % 2 == 1
    requires Valid(s1) && Extends(mem, s, mem1, s1, flags) && Extends(mem1, s1, mem2, s2, flags)
    ensures Extends(mem, s, mem2, s2, flags)
  {
    hide Linked;
    OnlyAddedTrans(mem, s, mem1, s1, mem2, s2);
    LinkedTrans(s, mem1, s1, mem2, s2, flags);
  }

  lemma RootHasNoParent(s: Space)
    requires Valid(s)
    ensures Parent(ROOT) !in s.tables
  {
  }

  lemma SlotKept(mem: Memory, s: Space, mem': Memory, s': Space, c: Node)
    requires Valid(s) && TablesStored(mem, s.tables) && Valid(s') && OnlyAdded(mem, s, mem', s')
    requires c in s.tables && Parent(c) in s'.tables
    requires forall d :: d in s.tables ==> d in s'.tables && s'.tables[d] == s.tables[d]
    ensures Parent(c) in s.tables && SlotOf(mem', s'.tables, c) == SlotOf(mem, s.tables, c)
  {
    RootHasNoParent(s');
    assert c != ROOT && Parent(c) in s.tables;
    hide IsPresent, OnlyAdded, FrameIn, Valid;
    assert IsPresent(SlotOf(mem, s.tables, c));
    WordKept(mem, s, mem', s', Parent(c), SlotIndex(c));
  }

  /** From entries the hardware follows, a call leads to such entries exactly when its flags
      have the page-size bit clear or it adds no table. */
  lemma NoHugeIff(mem: Memory, s: Space, mem': Memory, s': Space, flags: Word32)
    requires Valid(s) && TablesStored(mem, s.tables) && NoHuge(mem, s.tables)
    requires Valid(s') && Extends(mem, s, mem', s', flags)
    ensures NoHuge(mem', s'.tables) <==> !IsHuge(flags) || s'.tables.Keys == s.tables.Keys
  {
    hide MakeEntry, IsPresent, IsHuge, At, OnlyAdded, Valid;
    forall c | c in s'.tables && Parent(c) in s'.tables
      ensures IsHuge(SlotOf(mem', s'.tables, c)) <==> IsHuge(flags) && c !in s.tables
    {
      if c in s.tables {
        SlotKept(mem, s, mem', s', c);
      } else {
        EntryBits(s'.tables[c] * PAGE_SIZE, flags);
      }
    }
    if c :| c in s'.tables && c !in s.tables {
      assert Parent(c) in s'.tables;
    }
  }

  // ----- the hardware's walk -----

  datatype Walk = Fault | HugePage | Page(entry: nat)

  /** Four-level translation as in section 4.5 of the Intel SDM, volume 3A, from the words alone. */
  ghost function Translate(mem: Memory, root: nat, v: nat): Walk {
    var e4 := At(mem, root, v / 0x800_0000 % 512);
    if !IsPresent(e4) then Fault else
    var e3 := At(mem, FrameIn(e4), v / 0x4_0000 % 512);
    if !IsPresent(e3) then Fault else if IsHuge(e3) then HugePage else
    var e2 := At(mem, FrameIn(e3), v / 512 % 512);
    if !IsPresent(e2) then Fault else if IsHuge(e2) then HugePage else
    var e1 := At(mem, FrameIn(e2), v % 512);
    if !IsPresent(e1) then Fault else Page(e1)
  }

  /** The slot `unmap_page` reaches: the same walk without looking at any present bit. */
  ghost function BlindSlot(mem: Memory, root: nat, v: nat): (nat, nat) {
    var e4 := At(mem, root, v / 0x800_0000 % 512);
    var e3 := At(mem, FrameIn(e4), v / 0x4_0000 % 512);
    var e2 := At(mem, FrameIn(e3), v / 512 % 512);
    (FrameIn(e2), v % 512)
  }

  /** What an aligned `unmap_page` does to memory: it clears the word of the blind slot if that
      word is present. */
  ghost predicate UnmapEffect(mem: Memory, root: nat, addr: nat, mem': Memory) {
    var (p, i) := BlindSlot(mem, root, PageOf(addr));
    if IsPresent(At(mem, p, i)) then Stored(mem, p, i, ClearedEntry(addr), mem') else mem' == mem
  }

  /** The one word that may differ is the page address. */
  ghost predicate OnlyCleared(mem: Memory, addr: nat, mem': Memory) {
    forall p: nat, i: nat :: At(mem', p, i) == At(mem, p, i) || At(mem', p, i) == addr
  }

  lemma UnmapWrites(mem: Memory, root: nat, addr: nat, mem': Memory)
    requires UnmapEffect(mem, root, addr, mem')
    ensures OnlyCleared(mem, addr / 0x1000 % 0x100_0000_0000 * 0x1000, mem')
  {
    hide At, IsPresent, BlindSlot, ClearedEntry, FrameIn, PageOf;
    ClearedFields(addr);
  }

  /** Where the upper tables exist, the blind walk ends in the slot of the page. */
  lemma BlindSlotAgrees(mem: Memory, s: Space, v: nat)
    requires Valid(s) && TablesStored(mem, s.tables) && v < PAGES && NodeOf(v, 1) in s.tables
    ensures Parent(Node(0, v)) == NodeOf(v, 1)
    ensures BlindSlot(mem, s.tables[ROOT], v) == (s.tables[NodeOf(v, 1)], SlotIndex(Node(0, v)))
  {
    var c3, c2, c1 := NodeOf(v, 3), NodeOf(v, 2), NodeOf(v, 1);
    assert Parent(c3) == ROOT && Parent(c2) == c3 && Parent(c1) == c2;
    hide IsPresent, FrameIn, Parent, NodeOf;
  }

  /** The walk over the stored words finds exactly the abstract pages. */
  lemma TranslateAgrees(mem: Memory, s: Space, v: nat)
    requires Valid(s) && TablesStored(mem, s.tables) && PagesStored(mem, s.tables, s.pages)
    requires NoHuge(mem, s.tables) && v < PAGES
    ensures Translate(mem, s.tables[ROOT], v) == if v in s.pages then Page(s.pages[v]) else Fault
  {
    var c3, c2, c1, c0 := NodeOf(v, 3), NodeOf(v, 2), NodeOf(v, 1), Node(0, v);
    assert Parent(c3) == ROOT && Parent(c2) == c3 && Parent(c1) == c2 && Parent(c0) == c1;
    hide IsPresent, FrameIn, IsHuge, Parent, NodeOf;
    if v in s.pages {
      assert c1 in s.tables && c2 in s.tables && c3 in s.tables;
    }
  }

  // ----- references and unmapping -----

  /** The child of d in slot i. */
  function ChildAt(d: Node, i: nat): (c: Node)
    requires d.level > 0 && i < 512
    ensures Parent(c) == d && SlotIndex(c) == i && c.level == d.level - 1
  {
    Node(d.level - 1, d.region * 512 + i)
  }

  /** A table is referenced by exactly one present slot of the tables above the last level, the
      one its parent keeps for it; the root by none. */
  lemma TableReferencedOnce(mem: Memory, s: Space, c: Node, d: Node, i: nat)
    requires Valid(s) && TablesStored(mem, s.tables)
    requires c in s.tables && d in s.tables && d.level > 1 && i < 512
    ensures IsPresent(At(mem, s.tables[d], i)) && FrameIn(At(mem, s.tables[d], i)) == s.tables[c]
       <==> d == Parent(c) && i == SlotIndex(c)
  {
    var e := ChildAt(d, i);
    assert At(mem, s.tables[d], i) == SlotOf(mem, s.tables, e);
    assert 1 <= e.level <= 3;
    assert e == c <==> d == Parent(c) && i == SlotIndex(c);
    hide IsPresent, FrameIn, SlotOf, Parent, SlotIndex;
  }

  /** The walk of `unmap_page` ends in the slot of the page, outside all tables, or at an absent word. */
  ghost predicate EndsWell(mem: Memory, tables: map<Node, nat>, v: nat)
    requires ROOT in tables
  {
    var (p, i) := BlindSlot(mem, tables[ROOT], v);
    NodeOf(v, 1) in tables || p !in tables.Values || !IsPresent(At(mem, p, i))
  }

  /** Storing outside all tables disturbs nothing. */
  lemma StoreElsewhere(mem: Memory, tables: map<Node, nat>, pages: map<nat, nat>,
                       frame: nat, index: nat, word: nat, mem': Memory)
    requires TablesStored(mem, tables) && PagesStored(mem, tables, pages)
    requires Stored(mem, frame, index, word, mem') && frame !in tables.Values
    ensures TablesStored(mem', tables) && PagesStored(mem', tables, pages)
  {
    hide IsPresent, FrameIn, SlotIndex, Parent, At;
  }

  /** Clearing a present word of a table loses the table or the page it stood for. */
  lemma ClearedEntryLost(mem: Memory, s: Space, d: Node, i: nat, word: nat, mem': Memory)
    requires Valid(s) && TablesStored(mem, s.tables) && PagesStored(mem, s.tables, s.pages)
    requires d in s.tables && i < 512 && IsPresent(At(mem, s.tables[d], i)) && !IsPresent(word)
    requires Stored(mem, s.tables[d], i, word, mem')
    ensures !TablesStored(mem', s.tables) || !PagesStored(mem', s.tables, s.pages)
  {
    assert 1 <= d.level <= 4;
    var e := ChildAt(d, i);
    hide IsPresent, FrameIn, Parent, SlotIndex, Valid, ChildAt;
    assert SlotOf(mem, s.tables, e) == At(mem, s.tables[d], i) && SlotOf(mem', s.tables, e) == word;
    if e.level == 0 {
      assert e == Node(0, e.region);
    }
  }

  lemma NoTableNoPage(s: Space, v: nat)
    requires Valid(s) && NodeOf(v, 1) !in s.tables
    ensures v !in s.pages
  {
  }

  lemma BlindIndex(mem: Memory, root: nat, v: nat)
    ensures BlindSlot(mem, root, v).1 < 512
  {
  }

  lemma UnmapInPlace(mem: Memory, s: Space, addr: nat, mem': Memory)
    requires Valid(s) && TablesStored(mem, s.tables) && PagesStored(mem, s.tables, s.pages)
    requires UnmapEffect(mem, s.tables[ROOT], addr, mem') && NodeOf(PageOf(addr), 1) in s.tables
    ensures TablesStored(mem', s.tables) && PagesStored(mem', s.tables, s.pages - {PageOf(addr)})
  {
    var v := PageOf(addr);
    BlindSlotAgrees(mem, s, v);
    assert OneTableEach(s.tables);
    assert IsPresent(SlotOf(mem, s.tables, Node(0, v))) <==> v in s.pages;
    hide IsPresent, FrameIn, Parent, SlotIndex, NodeOf, ClearedEntry, PageOf, Stored, BlindSlot, TablesStored,
         PagesStored,
         OneTableEach, Valid;
    ClearedFields(addr);
    if v in s.pages {
      LeafCleared(mem, s.tables, s.pages, v, ClearedEntry(addr), mem');
    } else {
      assert s.pages - {v} == s.pages;
    }
  }

  /** Unmapping keeps the words faithful to the space without the page exactly when its walk ends well. */
  lemma UnmapStoredIff(mem: Memory, s: Space, addr: nat, mem': Memory)
    requires Valid(s) && TablesStored(mem, s.tables) && PagesStored(mem, s.tables, s.pages)
    requires UnmapEffect(mem, s.tables[ROOT], addr, mem')
    ensures TablesStored(mem', s.tables) && PagesStored(mem', s.tables, s.pages - {PageOf(addr)})
       <==> EndsWell(mem, s.tables, PageOf(addr))
  {
    hide IsPresent, FrameIn, Parent, ClearedEntry, PageOf, Stored, BlindSlot, At, TablesStored, PagesStored;
    var v := PageOf(addr);
    var (p, i) := BlindSlot(mem, s.tables[ROOT], v);
    ClearedFields(addr);
    if NodeOf(v, 1) in s.tables {
      UnmapInPlace(mem, s, addr, mem');
    } else {
      NoTableNoPage(s, v);
      assert s.pages - {v} == s.pages;
      if IsPresent(At(mem, p, i)) {
        if p in s.tables.Values {
          var d :| d in s.tables && s.tables[d] == p;
          BlindIndex(mem, s.tables[ROOT], v);
          ClearedEntryLost(mem, s, d, i, ClearedEntry(addr), mem');
        } else {
          StoreElsewhere(mem, s.tables, s.pages, p, i, ClearedEntry(addr), mem');
        }
      }
    }
  }

  lemma UnmapKeepsNoHuge(mem: Memory, tables: map<Node, nat>, root: nat, addr: nat, mem': Memory)
    requires NoHuge(mem, tables) && UnmapEffect(mem, root, addr, mem')
    ensures NoHuge(mem', tables)
  {
    hide IsPresent, FrameIn, Parent, SlotIndex, ClearedEntry, PageOf, BlindSlot, At, IsHuge;
    ClearedFields(addr);
  }
}
