/** What every call and every run of `map_page` and `unmap_page` keeps. */
module PageRuns {
  import opened Bits
  import opened Options
  import opened PageWords
  import opened Budget
  import opened PageSpace

  /** All frames that are a table or may still become one. */
  ghost function AllFrames(s: Space): set<nat> {
    s.tables.Values + set f | f in s.free
  }

  lemma PathParents(v: nat)
    requires v < PAGES
    ensures Parent(NodeOf(v, 0)) == NodeOf(v, 1) && Parent(NodeOf(v, 1)) == NodeOf(v, 2)
    ensures Parent(NodeOf(v, 2)) == NodeOf(v, 3) && Parent(NodeOf(v, 3)) == NodeOf(v, 4) == ROOT
  {
  }

  lemma InstallSeparate(tables: map<Node, nat>, free: seq<nat>, c: Node)
    requires Separate(tables, free) && free != [] && c !in tables
    ensures Separate(tables[c := free[0]], free[1..])
  {
    assert free[0] in free;
    assert forall f :: f in free[1..] ==> f in free;
  }

  lemma InsertValue<K, V>(m: map<K, V>, k: K, v: V)
    requires k !in m
    ensures m[k := v].Values == m.Values + {v}
  {
    var m' := m[k := v];
    assert m'[k] == v;
    forall x | x in m.Values
      ensures x in m'.Values
    {
      var j :| j in m && m[j] == x;
      assert m'[j] == x;
    }
  }

  lemma InstallKeeps(s: Space, c: Node)
    requires Valid(s) && s.free != []
    requires 1 <= c.level <= 3 && Parent(c) in s.tables && c !in s.tables
    ensures Valid(Install(s, c)) && AllFrames(Install(s, c)) == AllFrames(s)
  {
    hide Separate, Parent;
    var f, rest := s.free[0], s.free[1..];
    InstallSeparate(s.tables, s.free, c);
    assert Closed(s.tables[c := f]);
    assert LeavesInTables(s.tables[c := f], s.pages);
    InsertValue(s.tables, c, f);
    assert (set x | x in s.free) == {f} + set x | x in rest by {
      assert s.free == [f] + rest;
    }
  }

  lemma AddLeafKeeps(s: Space, addr: nat, flags: nat)
    requires Valid(s) && NodeOf(PageOf(addr), 1) in s.tables
    ensures Valid(AddLeaf(s, addr, flags)) && AllFrames(AddLeaf(s, addr, flags)) == AllFrames(s)
  {
  }

  lemma UnmapKeeps(s: Space, addr: nat)
    requires Valid(s)
    ensures Valid(UnmapPage(s, addr)) && AllFrames(UnmapPage(s, addr)) == AllFrames(s)
  {
  }

  lemma ValidIsSmall(s: Space)
    requires Valid(s)
    ensures SmallFrames(s.free)
  {
    forall j | 0 <= j < |s.free|
      ensures s.free[j] < PAGES
    {
      assert s.free[j] in s.free;
    }
  }

  lemma ValidHasRoot(s: Space)
    requires Valid(s)
    ensures ROOT in s.tables
  {
  }

  lemma GrownHas(s: Space, X: set<Node>, s': Space)
    requires TablesGrown(s, X, s')
    ensures s.tables.Keys + X <= s'.tables.Keys
  {
  }

  lemma {:induction false} EnsureTableKeeps(s: Space, addr: nat, level: nat, flags: nat)
    requires Valid(s) && 1 <= level <= 3 && Parent(NodeOf(PageOf(addr), level)) in s.tables
    ensures match EnsureTable(s, addr, level, flags)
            case Some(s') => Valid(s') && AllFrames(s') == AllFrames(s) && NodeOf(PageOf(addr), level) in s'.tables
            case None => true
    decreases |s.free|, 0
  {
    hide Valid, AllFrames, TablesGrown, FramesPlaced, PagesGrown;
    var c := NodeOf(PageOf(addr), level);
    ValidIsSmall(s);
    EnsureTableGrows(s, addr, level, flags);
    if EnsureTable(s, addr, level, flags).Some? {
      GrownHas(s, {c}, EnsureTable(s, addr, level, flags).value);
    }
    if c !in s.tables && s.free != [] {
      InstallKeeps(s, c);
      MapPageKeeps(Install(s, c), s.free[0] * PAGE_SIZE, flags);
    }
  }

  /** `map_page` keeps the tree closed and separate, and loses or duplicates no frame. */
  lemma {:induction false} MapPageKeeps(s: Space, addr: nat, flags: nat)
    requires Valid(s)
    ensures match MapPage(s, addr, flags)
            case Some(s') => Valid(s') && AllFrames(s') == AllFrames(s)
            case None => true
    decreases |s.free|, 1
  {
    hide Valid, AllFrames;
    var v := PageOf(addr);
    PathParents(v);
    ValidHasRoot(s);
    EnsureTableKeeps(s, addr, 3, flags);
    match EnsureTable(s, addr, 3, flags) {
      case None =>
      case Some(s3) =>
        EnsureTableKeeps(s3, addr, 2, flags);
        match EnsureTable(s3, addr, 2, flags) {
          case None =>
          case Some(s2) =>
            EnsureTableKeeps(s2, addr, 1, flags);
            match EnsureTable(s2, addr, 1, flags) {
              case None =>
              case Some(s1) =>
                AddLeafKeeps(s1, addr, flags);
            }
        }
    }
  }

  // ----- the frame budget -----

  /** A call succeeds exactly when some number of the free frames pays for the tables
      missing on the path of addr and on the paths of those frames. */
  lemma MapPageSucceedsIff(s: Space, addr: nat, flags: nat)
    requires Valid(s)
    ensures MapPage(s, addr, flags).Some? <==>
              exists n: nat :: n <= |s.free| && |Want(s.tables.Keys, Path(PageOf(addr)), Needs(s.free), n)| <= n
  {
    ValidIsSmall(s);
    MapPageGrows(s, addr, flags);
  }

  /** Every free frame lies in the r-th 2 MiB region. */
  ghost predicate InRegion(free: seq<nat>, r: nat) {
    forall j :: 0 <= j < |free| ==> free[j] / 512 == r
  }

  lemma RegionPath(f: nat, r: nat)
    requires f / 512 == r
    ensures Path(f) == Path(512 * r)
  {
    assert f / 0x4_0000 == r / 512 && 512 * r / 0x4_0000 == r / 512;
    assert f / 0x800_0000 == r / 0x4_0000 && 512 * r / 0x800_0000 == r / 0x4_0000;
  }

  lemma RegionNeeds(free: seq<nat>, r: nat)
    requires InRegion(free, r)
    ensures forall j :: 0 <= j < |free| ==> Needs(free)[j] == Path(512 * r)
  {
    forall j | 0 <= j < |free|
      ensures Needs(free)[j] == Path(512 * r)
    {
      RegionPath(free[j], r);
    }
  }

  lemma SetOfThree<T>(a: T, b: T, c: T)
    ensures |{a, b, c}| <= 3
  {
  }

  lemma PathSize(v: nat)
    ensures |Path(v)| <= 3
  {
    SetOfThree(NodeOf(v, 3), NodeOf(v, 2), NodeOf(v, 1));
  }

  lemma RegionClosed(s: Space, r: nat)
    requires Valid(s) && Node(1, r) in s.tables
    ensures Path(512 * r) <= s.tables.Keys
  {
    var c := Node(1, r);
    assert Parent(c) in s.tables && Parent(Parent(c)) in s.tables;
    assert NodeOf(512 * r, 1) == c && NodeOf(512 * r, 2) == Parent(c) && NodeOf(512 * r, 3) == Parent(Parent(c));
  }

  lemma RegionCost(s: Space, v: nat, r: nat)
    requires Valid(s)
    ensures ConstantCost(s.tables.Keys, Path(v), Path(512 * r)) <= 6
    ensures Node(1, r) in s.tables ==> ConstantCost(s.tables.Keys, Path(v), Path(512 * r)) <= 3
  {
    hide Path, Valid, ConstantCost;
    PathSize(v);
    PathSize(512 * r);
    ConstantCostBound(s.tables.Keys, Path(v), Path(512 * r));
    if Node(1, r) in s.tables {
      RegionClosed(s, r);
    }
  }

  /** With all free frames in one 2 MiB region a call takes exactly the tables missing on the
      paths of addr and of the region, or nothing when addr misses none; so at most six
      frames, and at most three once the region has its page table. */
  lemma RegionBudget(s: Space, addr: nat, flags: nat, r: nat)
    requires Valid(s) && InRegion(s.free, r)
    ensures var cost := ConstantCost(s.tables.Keys, Path(PageOf(addr)), Path(512 * r));
            && (MapPage(s, addr, flags).Some? <==> cost <= |s.free|)
            && (MapPage(s, addr, flags).Some? ==> |s.free| - |MapPage(s, addr, flags).value.free| == cost)
            && cost <= 6
            && (Node(1, r) in s.tables ==> cost <= 3)
  {
    hide ConstantCost, Path, Needs, Want;
    ValidIsSmall(s);
    MapPageGrows(s, addr, flags);
    RegionNeeds(s.free, r);
    ConstantNeeds(s.tables.Keys, Path(PageOf(addr)), Needs(s.free), Path(512 * r));
    RegionCost(s, PageOf(addr), r);
  }

  // ----- self-hosting and identity -----

  /** Every mapped page is mapped to itself. */
  ghost predicate Identity(s: Space) {
    forall v :: v in s.pages ==> FrameIn(s.pages[v]) == v
  }

  ghost predicate MapsItself(pages: map<nat, nat>, f: nat) {
    f in pages && FrameIn(pages[f]) == f
  }

  /** Every table frame the mapper allocated is identity-mapped through the tables themselves. */
  ghost predicate SelfHosted(s: Space, boot: set<nat>) {
    forall c :: c in s.tables ==> s.tables[c] in boot || MapsItself(s.pages, s.tables[c])
  }

  /** No free frame has its page mapped to another frame. */
  ghost predicate FreeUnclaimed(s: Space) {
    forall f :: f in s.free && f in s.pages ==> MapsItself(s.pages, f)
  }

  ghost predicate Hosted(s: Space, boot: set<nat>) {
    SelfHosted(s, boot) && FreeUnclaimed(s)
  }

  /** n is the number of frames a call for addr takes. */
  ghost predicate Cost(s: Space, addr: nat, n: nat) {
    Least(s.tables.Keys, Path(PageOf(addr)), Needs(s.free), n)
  }

  /** What a call takes is known before it: the first n free frames, n the least budget. */
  lemma CostTaken(s: Space, addr: nat, flags: nat, n: nat)
    requires Valid(s) && Cost(s, addr, n)
    ensures MapPage(s, addr, flags).Some? && n <= |s.free|
    ensures var s' := MapPage(s, addr, flags).value;
            s'.free == s.free[n..] && Taken(s, s') == s.free[..n] && Mapped(s, addr, flags, s')
  {
    hide Want, Needs, Path, LeafAdded, FramesPlaced, Valid;
    ValidIsSmall(s);
    MapPageGrows(s, addr, flags);
  }

  /** The frames a call takes all become tables. */
  lemma TakenAreTables(s: Space, addr: nat, flags: nat)
    requires Valid(s) && MapPage(s, addr, flags).Some?
    ensures var s' := MapPage(s, addr, flags).value;
            forall f :: f in Taken(s, s') ==> f in s'.tables.Values
  {
    ValidIsSmall(s);
    MapPageGrows(s, addr, flags);
    MapPageKeeps(s, addr, flags);
    var s' := MapPage(s, addr, flags).value;
    var n := |s.free| - |s'.free|;
    forall f | f in Taken(s, s')
      ensures f in s'.tables.Values
    {
      var j :| 0 <= j < n && s.free[j] == f;
      assert f in AllFrames(s);
      assert f !in s'.free;
    }
  }

  lemma FreeSplits(s: Space, n: nat)
    requires Valid(s) && n <= |s.free|
    ensures forall f :: f in s.free <==> f in s.free[..n] || f in s.free[n..]
    ensures forall f :: f in s.free[..n] ==> f !in s.free[n..] && f < PAGES
  {
    assert s.free == s.free[..n] + s.free[n..];
  }

  /** The page of f leads to f once f is taken. */
  predicate WillMapItself(pages: map<nat, nat>, f: nat, flags: nat) {
    if f in pages then FrameIn(pages[f]) == f else NamesPage(f * PAGE_SIZE, flags)
  }

  lemma TakenMapsItself(s: Space, addr: nat, flags: Word32, n: nat, f: nat)
    requires Valid(s) && Cost(s, addr, n) && n <= |s.free| && f in s.free[..n]
    ensures MapPage(s, addr, flags).Some?
    ensures MapsItself(MapPage(s, addr, flags).value.pages, f) <==> WillMapItself(s.pages, f, flags)
  {
    hide Valid, Cost, TablesGrown, FramesPlaced, PageOf, FrameIn, MakeEntry, NamesPage;
    CostTaken(s, addr, flags, n);
    FreeSplits(s, n);
    FrameIsItsPage(f);
    NamesPageIff(f * PAGE_SIZE, flags);
  }

  /** The first n free frames will be mapped to themselves, those that were tables at boot aside. */
  ghost predicate TakenFit(s: Space, flags: nat, boot: set<nat>, n: nat)
    requires n <= |s.free|
  {
    forall f :: f in s.free[..n] && f !in boot ==> WillMapItself(s.pages, f, flags)
  }

  lemma OldPagesStay(s: Space, addr: nat, flags: nat, s': Space)
    requires LeafAdded(s, addr, flags, s')
    ensures forall f :: MapsItself(s.pages, f) ==> MapsItself(s'.pages, f)
  {
  }

  /** What decides about hosting are the frames taken. */
  lemma SelfHostedParts(s: Space, addr: nat, flags: nat, boot: set<nat>, n: nat)
    requires Valid(s) && SelfHosted(s, boot) && Cost(s, addr, n) && n <= |s.free| && MapPage(s, addr, flags).Some?
    ensures SelfHosted(MapPage(s, addr, flags).value, boot) <==>
              forall f :: f in s.free[..n] && f !in boot ==> MapsItself(MapPage(s, addr, flags).value.pages, f)
  {
    hide Valid, Cost, MapsItself, MapPage, TablesGrown;
    CostTaken(s, addr, flags, n);
    TakenAreTables(s, addr, flags);
    var s' := MapPage(s, addr, flags).value;
    OldPagesStay(s, addr, flags, s');
    if SelfHosted(s', boot) {
      forall f | f in s.free[..n] && f !in boot
        ensures MapsItself(s'.pages, f)
      {
        assert f in s'.tables.Values;
        var c :| c in s'.tables && s'.tables[c] == f;
      }
    }
  }

  /** From hosted tables, a call leads to hosted tables exactly when every frame it takes that
      was not a table at boot will be mapped to itself: it is already, or it is unmapped and the
      flags leave its address alone. */
  lemma MapPageSelfHostedIff(s: Space, addr: nat, flags: Word32, boot: set<nat>, n: nat)
    requires Valid(s) && SelfHosted(s, boot) && Cost(s, addr, n)
    ensures MapPage(s, addr, flags).Some? && n <= |s.free|
    ensures SelfHosted(MapPage(s, addr, flags).value, boot) <==> TakenFit(s, flags, boot, n)
  {
    hide Valid, Cost, Mapped, MapsItself, MapPage, WillMapItself;
    CostTaken(s, addr, flags, n);
    var s' := MapPage(s, addr, flags).value;
    forall f | f in s.free[..n]
      ensures MapsItself(s'.pages, f) <==> WillMapItself(s.pages, f, flags)
    {
      TakenMapsItself(s, addr, flags, n, f);
    }
    SelfHostedParts(s, addr, flags, boot, n);
  }

  /** A call for addr that takes n frames maps no page of a frame left free to another frame. */
  ghost predicate OwnFrame(s: Space, addr: nat, flags: nat, n: nat)
    requires n <= |s.free|
  {
    PageOf(addr) in s.pages || PageOf(addr) !in s.free[n..] || NamesPage(addr, flags)
  }

  /** A call keeps the tables hosted and the free frames unclaimed exactly when the frames it takes
      will be mapped to themselves, and the page was mapped, is none of the frames left free, or
      is named by the entry of its address. */
  lemma MapPageHostedIff(s: Space, addr: nat, flags: Word32, boot: set<nat>, n: nat)
    requires Valid(s) && Hosted(s, boot) && Cost(s, addr, n)
    ensures MapPage(s, addr, flags).Some? && n <= |s.free|
    ensures Hosted(MapPage(s, addr, flags).value, boot) <==> TakenFit(s, flags, boot, n) && OwnFrame(s, addr, flags, n)
  {
    hide Valid, Cost, TablesGrown, FramesPlaced, PageOf, FrameIn, MakeEntry, SelfHosted, TakenFit, NamesPage;
    MapPageSelfHostedIff(s, addr, flags, boot, n);
    CostTaken(s, addr, flags, n);
    FreeSplits(s, n);
    NamesPageIff(addr, flags);
  }

  /** From a state of identity mappings, a call leads to identity mappings exactly when the frames
      it takes will be mapped to themselves, and the page was mapped, is one of these frames, or is
      named by the entry of its address. */
  lemma MapPageIdentityIff(s: Space, addr: nat, flags: Word32, n: nat)
    requires Valid(s) && Identity(s) && Cost(s, addr, n)
    ensures MapPage(s, addr, flags).Some? && n <= |s.free|
    ensures Identity(MapPage(s, addr, flags).value) <==>
              TakenFit(s, flags, {}, n) &&
              (PageOf(addr) in s.pages || PageOf(addr) in s.free[..n] || NamesPage(addr, flags))
  {
    hide Valid, Cost, TablesGrown, FramesPlaced, PageOf, FrameIn, MakeEntry, NamesPage, WillMapItself;
    CostTaken(s, addr, flags, n);
    FreeSplits(s, n);
    NamesPageIff(addr, flags);
    forall f | f in s.free[..n]
      ensures MapsItself(MapPage(s, addr, flags).value.pages, f) <==> WillMapItself(s.pages, f, flags)
    {
      TakenMapsItself(s, addr, flags, n, f);
    }
  }

  /** Unmapping a page keeps the tables hosted exactly when the page is not the frame of a
      table the mapper allocated. */
  lemma UnmapHostedIff(s: Space, addr: nat, boot: set<nat>)
    requires Hosted(s, boot) && addr % PAGE_SIZE == 0
    ensures Hosted(UnmapPage(s, addr), boot) <==> PageOf(addr) !in s.tables.Values - boot
  {
    hide PageOf, FrameIn;
    if PageOf(addr) in s.tables.Values - boot {
      var c :| c in s.tables && s.tables[c] == PageOf(addr);
      assert c in UnmapPage(s, addr).tables;
    }
  }

  /** Mapping a page again with the flags of its old leaf restores the whole state exactly
      when the old leaf is an identity mapping without bits above the address field. */
  lemma UnmapMapRoundTripIff(s: Space, addr: nat)
    requires Valid(s) && addr % PAGE_SIZE == 0 && PageOf(addr) in s.pages
    ensures var leaf := s.pages[PageOf(addr)];
            MapPage(UnmapPage(s, addr), addr, leaf % PAGE_SIZE) == Some(s) <==> leaf / PAGE_SIZE == FrameIn(addr)
  {
    var v := PageOf(addr);
    var leaf, gone := s.pages[v], UnmapPage(s, addr);
    PathParents(v);
    assert NodeOf(v, 1) in s.tables && NodeOf(v, 2) in s.tables && NodeOf(v, 3) in s.tables;
    var back := AddLeaf(gone, addr, leaf % PAGE_SIZE);
    assert MapPage(gone, addr, leaf % PAGE_SIZE) == Some(back);
    EntryFields(addr, leaf % PAGE_SIZE);
    assert back.pages == s.pages[v := MakeEntry(addr, leaf % PAGE_SIZE)];
    assert s.pages == s.pages[v := leaf];
  }

  // ----- whole runs -----

  datatype Op = Map(addr: Word, flags: Word32) | Unmap(addr: Word)

  /** An aligned `unmap_page` is only understood where the page table of its page exists. */
  predicate TableThere(s: Space, addr: nat) {
    addr % PAGE_SIZE == 0 ==> NodeOf(PageOf(addr), 1) in s.tables
  }

  function Apply(s: Space, op: Op): Option<Space> {
    match op
    case Map(addr, flags) => MapPage(s, addr, Present(flags))
    case Unmap(addr) => if TableThere(s, addr) then Some(UnmapPage(s, addr)) else None
  }

  /** None: some step was out of frames, or unmapped a page without a page table. */
  function Run(s: Space, ops: seq<Op>): Option<Space>
    decreases |ops|
  {
    if ops == [] then Some(s)
    else
      var s1 :- Apply(s, ops[0]);
      Run(s1, ops[1..])
  }

  /** Every unmapping of the run finds the page table of its page. */
  ghost predicate UnmapsThere(s: Space, ops: seq<Op>)
    decreases |ops|
  {
    ops == [] ||
    ((ops[0].Unmap? ==> TableThere(s, ops[0].addr)) &&
     (Apply(s, ops[0]).Some? ==> UnmapsThere(Apply(s, ops[0]).value, ops[1..])))
  }

  ghost predicate PlainCall(addr: nat, flags: nat, free: seq<nat>) {
    NamesPage(addr, flags) && forall f :: f in free ==> NamesPage(f * PAGE_SIZE, flags)
  }

  /** The entries of the run name their own pages, those for the free frames included. */
  ghost predicate PlainOps(ops: seq<Op>, free: seq<nat>) {
    forall i :: 0 <= i < |ops| && ops[i].Map? ==> PlainCall(ops[i].addr, Present(ops[i].flags), free)
  }

  lemma ApplyKeeps(s: Space, op: Op)
    requires Valid(s) && Apply(s, op).Some?
    ensures var s' := Apply(s, op).value;
            && Valid(s') && AllFrames(s') == AllFrames(s)
            && (forall c :: c in s.tables ==> c in s'.tables && s'.tables[c] == s.tables[c])
  {
    hide Valid, AllFrames, TablesGrown, LeafAdded, Present, MapPage;
    match op {
      case Map(addr, flags) =>
        MapPageKeeps(s, addr, Present(flags));
        ValidIsSmall(s);
        MapPageGrows(s, addr, Present(flags));
      case Unmap(addr) =>
        UnmapKeeps(s, addr);
    }
  }

  /** Every run keeps the tree closed and separate, keeps every table in place and conserves the frames. */
  lemma {:induction false} RunKeeps(s: Space, ops: seq<Op>)
    requires Valid(s) && Run(s, ops).Some?
    ensures var s' := Run(s, ops).value;
            && Valid(s') && AllFrames(s') == AllFrames(s)
            && (forall c :: c in s.tables ==> c in s'.tables && s'.tables[c] == s.tables[c])
    decreases |ops|
  {
    hide Valid, AllFrames, Apply;
    if ops != [] {
      ApplyKeeps(s, ops[0]);
      RunKeeps(Apply(s, ops[0]).value, ops[1..]);
    }
  }

  /** A step that can be told beforehand to keep the tables hosted. */
  ghost predicate Harmless(s: Space, op: Op, boot: set<nat>) {
    match op
    case Map(addr, flags) =>
      forall n: nat :: Cost(s, addr, n) ==> TakenFit(s, Present(flags), boot, n) && OwnFrame(s, addr, Present(flags), n)
    case Unmap(addr) =>
      addr % PAGE_SIZE == 0 ==> PageOf(addr) !in s.tables.Values - boot
  }

  /** Every step of the run is harmless where it is taken. */
  ghost predicate HarmlessRun(s: Space, ops: seq<Op>, boot: set<nat>)
    decreases |ops|
  {
    ops == [] || Apply(s, ops[0]).None? ||
    (Harmless(s, ops[0], boot) && HarmlessRun(Apply(s, ops[0]).value, ops[1..], boot))
  }

  /** The tables are hosted after every step of the run. */
  ghost predicate AlwaysHosted(s: Space, ops: seq<Op>, boot: set<nat>)
    decreases |ops|
  {
    && Hosted(s, boot)
    && (ops == [] || Apply(s, ops[0]).None? || AlwaysHosted(Apply(s, ops[0]).value, ops[1..], boot))
  }

  lemma CostUnique(s: Space, addr: nat, n: nat, m: nat)
    requires Cost(s, addr, n) && Cost(s, addr, m)
    ensures n == m
  {
    hide Want, Needs, Path;
  }

  lemma GrownCost(s: Space, addr: nat, flags: nat, s': Space)
    requires |s'.free| <= |s.free| && Mapped(s, addr, flags, s')
    ensures Cost(s, addr, |s.free| - |s'.free|)
  {
    hide Least, Want, Needs, Path, LeafAdded, FramesPlaced, PageOf;
  }

  lemma CostExists(s: Space, addr: nat, flags: nat) returns (n: nat)
    requires Valid(s) && MapPage(s, addr, flags).Some?
    ensures Cost(s, addr, n)
  {
    hide Valid, Mapped, MapPage;
    ValidIsSmall(s);
    MapPageGrows(s, addr, flags);
    n := |s.free| - |MapPage(s, addr, flags).value.free|;
    GrownCost(s, addr, flags, MapPage(s, addr, flags).value);
  }

  lemma ApplyHostedIff(s: Space, op: Op, boot: set<nat>)
    requires Valid(s) && Hosted(s, boot) && Apply(s, op).Some?
    ensures Hosted(Apply(s, op).value, boot) <==> Harmless(s, op, boot)
  {
    hide Valid, Hosted, Cost, OwnFrame, TakenFit, MapPage, Present;
    match op {
      case Map(addr, flags) =>
        var n := CostExists(s, addr, Present(flags));
        MapPageHostedIff(s, addr, Present(flags), boot, n);
        forall m: nat | Cost(s, addr, m)
          ensures m == n
        {
          CostUnique(s, addr, n, m);
        }
      case Unmap(addr) =>
        if addr % PAGE_SIZE == 0 {
          UnmapHostedIff(s, addr, boot);
        }
    }
  }

  /** A hosted run ends with hosted tables. */
  lemma {:induction false} HostedAtEnd(s: Space, ops: seq<Op>, boot: set<nat>)
    requires AlwaysHosted(s, ops, boot) && Run(s, ops).Some?
    ensures Hosted(Run(s, ops).value, boot)
    decreases |ops|
  {
    hide Hosted, Apply;
    if ops != [] {
      HostedAtEnd(Apply(s, ops[0]).value, ops[1..], boot);
    }
  }

  lemma {:induction false} StepsHostedIff(s: Space, ops: seq<Op>, boot: set<nat>)
    requires Valid(s) && Hosted(s, boot)
    ensures AlwaysHosted(s, ops, boot) <==> HarmlessRun(s, ops, boot)
    decreases |ops|
  {
    hide Valid, Hosted, Apply, Harmless;
    if ops != [] && Apply(s, ops[0]).Some? {
      var s1 := Apply(s, ops[0]).value;
      ApplyKeeps(s, ops[0]);
      ApplyHostedIff(s, ops[0], boot);
      if Hosted(s1, boot) {
        StepsHostedIff(s1, ops[1..], boot);
      }
    }
  }

  /** Over every run the tables stay hosted throughout exactly when no step unmaps an allocated
      table frame, takes a frame that will not be mapped to itself, or maps a free frame's page to
      another frame; and then they are hosted at the end. */
  lemma RunHostedIff(s: Space, ops: seq<Op>, boot: set<nat>)
    requires Valid(s) && Hosted(s, boot)
    ensures AlwaysHosted(s, ops, boot) <==> HarmlessRun(s, ops, boot)
    ensures HarmlessRun(s, ops, boot) && Run(s, ops).Some? ==> Hosted(Run(s, ops).value, boot)
  {
    hide Valid, Hosted, AlwaysHosted, HarmlessRun, Run;
    StepsHostedIff(s, ops, boot);
    if AlwaysHosted(s, ops, boot) && Run(s, ops).Some? {
      HostedAtEnd(s, ops, boot);
    }
  }

  /** Every aligned unmapping of the run spares the frames that are or may become tables. */
  ghost predicate SparesFrames(ops: seq<Op>, frames: set<nat>) {
    forall i :: 0 <= i < |ops| && ops[i].Unmap? && ops[i].addr % PAGE_SIZE == 0 ==> PageOf(ops[i].addr) !in frames
  }

  lemma ApplyShrinks(s: Space, op: Op)
    requires Valid(s) && Apply(s, op).Some?
    ensures forall f :: f in Apply(s, op).value.free ==> f in s.free
  {
    hide Valid, Bought, FramesPlaced, LeafAdded, Present, MapPage;
    if op.Map? {
      ValidIsSmall(s);
      MapPageGrows(s, op.addr, Present(op.flags));
    }
  }

  lemma PlainIsHarmless(s: Space, op: Op, boot: set<nat>)
    requires FreeUnclaimed(s) && op.Map? && PlainCall(op.addr, Present(op.flags), s.free)
    ensures Harmless(s, op, boot)
  {
    hide NamesPage, Present, FrameIn, PageOf, Want, Needs, Path;
  }

  lemma SparingIsHarmless(s: Space, op: Op, boot: set<nat>)
    requires op.Unmap? && (op.addr % PAGE_SIZE == 0 ==> PageOf(op.addr) !in AllFrames(s) - boot)
    ensures Harmless(s, op, boot)
  {
    hide PageOf;
  }

  lemma {:induction false} PlainRunIsHarmless(s: Space, ops: seq<Op>, boot: set<nat>)
    requires Valid(s) && Hosted(s, boot) && PlainOps(ops, s.free) && SparesFrames(ops, AllFrames(s) - boot)
    ensures HarmlessRun(s, ops, boot)
    decreases |ops|
  {
    hide Valid, SelfHosted, FreeUnclaimed, Apply, NamesPage, Present, Harmless;
    if ops != [] && Apply(s, ops[0]).Some? {
      var s1 := Apply(s, ops[0]).value;
      if ops[0].Map? {
        PlainIsHarmless(s, ops[0], boot);
      } else {
        SparingIsHarmless(s, ops[0], boot);
      }
      ApplyKeeps(s, ops[0]);
      ApplyShrinks(s, ops[0]);
      ApplyHostedIff(s, ops[0], boot);
      PlainRunIsHarmless(s1, ops[1..], boot);
    }
  }

  /** A run can be told to keep the tables hosted before it starts: when its entries name their
      own pages and it unmaps no page that is a table or a free frame at the start. */
  lemma RunHosted(s: Space, ops: seq<Op>, boot: set<nat>)
    requires Valid(s) && Hosted(s, boot) && PlainOps(ops, s.free) && SparesFrames(ops, AllFrames(s) - boot)
    ensures AlwaysHosted(s, ops, boot)
    ensures Run(s, ops).Some? ==> Hosted(Run(s, ops).value, boot)
  {
    hide Valid, Hosted, PlainOps, SparesFrames;
    PlainRunIsHarmless(s, ops, boot);
    RunHostedIff(s, ops, boot);
  }

  lemma ApplyKeepsIdentity(s: Space, op: Op)
    requires Valid(s) && Identity(s) && Apply(s, op).Some?
    requires op.Map? ==> PlainCall(op.addr, Present(op.flags), s.free)
    ensures Identity(Apply(s, op).value)
  {
    hide Valid, MapPage, Cost, NamesPage, Present, FrameIn;
    match op {
      case Map(addr, flags) =>
        var n := CostExists(s, addr, Present(flags));
        MapPageIdentityIff(s, addr, Present(flags), n);
      case Unmap(addr) =>
    }
  }

  /** Every run whose entries name their own pages keeps identity mappings. */
  lemma {:induction false} RunKeepsIdentity(s: Space, ops: seq<Op>)
    requires Valid(s) && Identity(s) && PlainOps(ops, s.free) && Run(s, ops).Some?
    ensures Identity(Run(s, ops).value)
    decreases |ops|
  {
    hide Valid, Identity, Apply, NamesPage, Present;
    if ops != [] {
      ApplyKeeps(s, ops[0]);
      ApplyShrinks(s, ops[0]);
      ApplyKeepsIdentity(s, ops[0]);
      RunKeepsIdentity(Apply(s, ops[0]).value, ops[1..]);
    }
  }
}
