/** The page tables as a trie of table frames, the pages it maps and the frames still
    free, with `map_page` as a recursion on it. PageMapper ties the real tables to it. */
module PageSpace {
  import opened Bits
  import opened Options
  import opened PageWords
  import opened Budget

  /** A table of level 1 (PT) to 4 (PML4), or a page (level 0), named by the range of
      512^level pages it covers. */
  datatype Node = Node(level: nat, region: nat)

  const ROOT := Node(4, 0)

  function NodeOf(v: nat, level: nat): Node
    requires level <= 4
  {
    Node(level, if level == 0 then v
                else if level == 1 then v / 512
                else if level == 2 then v / 0x4_0000
                else if level == 3 then v / 0x800_0000
                else v / PAGES)
  }

  function Parent(c: Node): Node {
    Node(c.level + 1, c.region / 512)
  }

  /** The slot of `Parent(c)` that refers to c. */
  function SlotIndex(c: Node): (i: nat)
    ensures i < 512
  {
    c.region % 512
  }

  /** The tables below the root that translate page v. */
  function Path(v: nat): set<Node> {
    {NodeOf(v, 3), NodeOf(v, 2), NodeOf(v, 1)}
  }

  /** tables: the frame of every table; pages: the leaf entry of every mapped page;
      free: the frames `pmm_alloc` returns from now on, in order. */
  datatype Space = Space(tables: map<Node, nat>, pages: map<nat, nat>, free: seq<nat>)

  /** Every table but the root hangs below a table of the next level. */
  ghost predicate Closed(tables: map<Node, nat>) {
    && ROOT in tables
    && forall c :: c in tables ==> c == ROOT || (1 <= c.level <= 3 && Parent(c) in tables)
  }

  /** No two tables share a frame, no table is a free frame and no frame is free twice. */
  ghost predicate Separate(tables: map<Node, nat>, free: seq<nat>) {
    && (forall c, d :: c in tables && d in tables && tables[c] == tables[d] ==> c == d)
    && (forall c :: c in tables ==> 0 < tables[c] < FRAMES && tables[c] !in free)
    && (forall f :: f in free ==> 0 < f < PAGES)
    && (forall i, j :: 0 <= i < j < |free| ==> free[i] != free[j])
  }

  ghost predicate LeavesInTables(tables: map<Node, nat>, pages: map<nat, nat>) {
    forall v :: v in pages ==> v < PAGES && NodeOf(v, 1) in tables
  }

  ghost predicate Valid(s: Space) {
    Closed(s.tables) && Separate(s.tables, s.free) && LeavesInTables(s.tables, s.pages)
  }

  function Install(s: Space, c: Node): Space
    requires s.free != []
  {
    Space(s.tables[c := s.free[0]], s.pages, s.free[1..])
  }

  function AddLeaf(s: Space, addr: nat, flags: nat): Space {
    if PageOf(addr) in s.pages then s
    else s.(pages := s.pages[PageOf(addr) := MakeEntry(addr, flags)])
  }

  /** One of the three blocks of `map_page`: when the table is missing, take a frame,
      install it and identity-map it by a recursive call. */
  function EnsureTable(s: Space, addr: nat, level: nat, flags: nat): (r: Option<Space>)
    requires 1 <= level <= 3
    ensures r.Some? ==> |r.value.free| <= |s.free|
    decreases |s.free|, 0
  {
    var c := NodeOf(PageOf(addr), level);
    if c in s.tables then Some(s)
    else if s.free == [] then None
    else MapPage(Install(s, c), s.free[0] * PAGE_SIZE, flags)
  }

  /** `map_page`, with the present bit already in the flags. None: a frame was missing. */
  function MapPage(s: Space, addr: nat, flags: nat): (r: Option<Space>)
    ensures r.Some? ==> |r.value.free| <= |s.free|
    decreases |s.free|, 1
  {
    var s3 :- EnsureTable(s, addr, 3, flags);
    var s2 :- EnsureTable(s3, addr, 2, flags);
    var s1 :- EnsureTable(s2, addr, 1, flags);
    Some(AddLeaf(s1, addr, flags))
  }

  function UnmapPage(s: Space, addr: nat): Space {
    if addr % PAGE_SIZE != 0 then s else s.(pages := s.pages - {PageOf(addr)})
  }

  // ----- what one call takes and adds, without the recursion -----

  /** Taking a frame for a table makes the tables on the frame's own path necessary. */
  ghost function Needs(free: seq<nat>): (r: seq<set<Node>>)
    ensures |r| == |free|
  {
    seq(|free|, i requires 0 <= i < |free| => Path(free[i]))
  }

  /** The frames a step from s to s' took. */
  ghost function Taken(s: Space, s': Space): seq<nat>
    requires |s'.free| <= |s.free|
  {
    s.free[..|s.free| - |s'.free|]
  }

  /** s' has exactly the tables that X makes necessary, bought with the least number of frames. */
  ghost predicate TablesGrown(s: Space, X: set<Node>, s': Space) {
    && |s'.free| <= |s.free|
    && var n := |s.free| - |s'.free|;
    && s'.free == s.free[n..]
    && Bought(s.tables.Keys, X, Needs(s.free), n, s'.tables.Keys)
  }

  /** Present tables stay where they are, and new tables use frames that were taken. */
  ghost predicate FramesPlaced(s: Space, s': Space) {
    && |s'.free| <= |s.free|
    && (forall c :: c in s.tables ==> c in s'.tables && s'.tables[c] == s.tables[c])
    && (forall c :: c in s'.tables && c !in s.tables ==> s'.tables[c] in Taken(s, s'))
  }

  /** pages' is pages with the frames identity-mapped that were not mapped before. */
  ghost predicate PagesGrown(pages: map<nat, nat>, frames: seq<nat>, flags: nat, pages': map<nat, nat>) {
    && (forall v :: v in pages' <==> v in pages || v in frames)
    && (forall v :: v in pages ==> pages'[v] == pages[v])
    && (forall v :: v in frames && v !in pages ==> pages'[v] == MakeEntry(v * PAGE_SIZE, flags))
  }

  /** s' is s grown by what X makes necessary. */
  ghost predicate Grown(s: Space, X: set<Node>, flags: nat, s': Space) {
    TablesGrown(s, X, s') && FramesPlaced(s, s') && PagesGrown(s.pages, Taken(s, s'), flags, s'.pages)
  }

  /** No number of the free frames pays for what X makes necessary. */
  ghost predicate OutOfFrames(s: Space, X: set<Node>) {
    Starved(s.tables.Keys, X, Needs(s.free))
  }

  /** The pages a whole call adds: the frames it took, and the page of addr. */
  ghost predicate LeafAdded(s: Space, addr: nat, flags: nat, s': Space) {
    && |s'.free| <= |s.free|
    && var taken := Taken(s, s');
    && var v := PageOf(addr);
    && (forall u :: u in s'.pages <==> u in s.pages || u in taken || u == v)
    && (forall u :: u in s.pages ==> s'.pages[u] == s.pages[u])
    && (forall u :: u in taken && u !in s.pages ==> s'.pages[u] == MakeEntry(u * PAGE_SIZE, flags))
    && (v !in s.pages && v !in taken ==> s'.pages[v] == MakeEntry(addr, flags))
  }

  lemma NeedsTail(free: seq<nat>, n: nat)
    requires n <= |free|
    ensures Needs(free[n..]) == Needs(free)[n..]
    ensures free != [] ==> Needs(free)[0] == Path(free[0])
  {
  }

  lemma TakenSplit(s: Space, s1: Space, s2: Space)
    requires |s2.free| <= |s1.free| <= |s.free| && s1.free == s.free[|s.free| - |s1.free|..]
    ensures Taken(s, s2) == Taken(s, s1) + Taken(s1, s2)
  {
  }

  lemma TablesGrownTrans(s: Space, X: set<Node>, s1: Space, Y: set<Node>, s2: Space)
    requires TablesGrown(s, X, s1) && TablesGrown(s1, Y, s2)
    ensures TablesGrown(s, X + Y, s2)
  {
    hide Bought, Least, Want, Needs, Path;
    var n1, n2 := |s.free| - |s1.free|, |s1.free| - |s2.free|;
    var needs := Needs(s.free);
    assert Needs(s1.free) == needs[n1..] by {
      NeedsTail(s.free, n1);
    }
    BoughtTrans(s.tables.Keys, X, s1.tables.Keys, Y, s2.tables.Keys, needs, n1, n2);
  }

  lemma FramesPlacedTrans(s: Space, s1: Space, s2: Space)
    requires |s1.free| <= |s.free| && s1.free == s.free[|s.free| - |s1.free|..]
    requires FramesPlaced(s, s1) && FramesPlaced(s1, s2)
    ensures FramesPlaced(s, s2)
  {
    TakenSplit(s, s1, s2);
  }

  lemma PagesGrownTrans(p: map<nat, nat>, a: seq<nat>, q: map<nat, nat>, b: seq<nat>, r: map<nat, nat>, flags: nat)
    requires PagesGrown(p, a, flags, q) && PagesGrown(q, b, flags, r)
    ensures PagesGrown(p, a + b, flags, r)
  {
  }

  /** Growing for X and then for Y is growing for both. */
  lemma GrownTrans(s: Space, X: set<Node>, s1: Space, Y: set<Node>, s2: Space, flags: nat)
    requires Grown(s, X, flags, s1) && Grown(s1, Y, flags, s2)
    ensures Grown(s, X + Y, flags, s2)
  {
    assert TablesGrown(s, X + Y, s2) by {
      TablesGrownTrans(s, X, s1, Y, s2);
    }
    assert FramesPlaced(s, s2) by {
      FramesPlacedTrans(s, s1, s2);
    }
    assert PagesGrown(s.pages, Taken(s, s2), flags, s2.pages) by {
      TakenSplit(s, s1, s2);
      PagesGrownTrans(s.pages, Taken(s, s1), s1.pages, Taken(s1, s2), s2.pages, flags);
    }
  }

  lemma OutOfFramesAfter(s: Space, X: set<Node>, s1: Space, Y: set<Node>)
    requires TablesGrown(s, X, s1) && OutOfFrames(s1, Y)
    ensures OutOfFrames(s, X + Y)
  {
    var n := |s.free| - |s1.free|;
    NeedsTail(s.free, n);
    StarvedTrans(s.tables.Keys, X, s1.tables.Keys, Y, Needs(s.free), n);
  }

  lemma OutOfFramesMore(s: Space, X: set<Node>, Y: set<Node>)
    requires OutOfFrames(s, X)
    ensures OutOfFrames(s, X + Y)
  {
    StarvedMore(s.tables.Keys, X, Y, Needs(s.free));
  }

  /** Installing a missing table takes the first frame of the budget. */
  lemma InstallTablesGrown(s: Space, c: Node, s': Space)
    requires s.free != [] && c !in s.tables
    requires TablesGrown(Install(s, c), Path(s.free[0]), s')
    ensures TablesGrown(s, {c}, s')
  {
    hide Least, Want, Needs, Path, Bought;
    assert Install(s, c).tables.Keys == s.tables.Keys + {c};
    var needs := Needs(s.free);
    NeedsTail(s.free, 1);
    BuyBought(s.tables.Keys, c, needs, |s.free| - 1 - |s'.free|, s'.tables.Keys);
  }

  lemma InstallFramesPlaced(s: Space, c: Node, s': Space)
    requires s.free != [] && c !in s.tables
    requires FramesPlaced(Install(s, c), s')
    ensures FramesPlaced(s, s')
    ensures Taken(s, s') == [s.free[0]] + Taken(Install(s, c), s')
  {
    var s1 := Install(s, c);
    assert Taken(s, s1) == [s.free[0]];
    TakenSplit(s, s1, s');
  }

  lemma InstallOutOfFrames(s: Space, c: Node)
    requires c !in s.tables
    requires s.free == [] || OutOfFrames(Install(s, c), Path(s.free[0]))
    ensures OutOfFrames(s, {c})
  {
    if s.free != [] {
      NeedsTail(s.free, 1);
      assert Install(s, c).tables.Keys == s.tables.Keys + {c};
    }
    BuyStarved(s.tables.Keys, c, Needs(s.free));
  }

  ghost predicate SmallFrames(frames: seq<nat>) {
    forall j :: 0 <= j < |frames| ==> frames[j] < PAGES
  }

  lemma FrameIsItsPage(f: nat)
    requires f < PAGES
    ensures PageOf(f * PAGE_SIZE) == f && FrameIn(f * PAGE_SIZE) == f
  {
  }

  lemma NothingWanted(s: Space, X: set<Node>, flags: nat)
    requires X <= s.tables.Keys
    ensures Grown(s, X, flags, s)
  {
    assert Needs(s.free)[..0] == [];
    assert Want(s.tables.Keys, X, Needs(s.free), 0) == {};
    assert Taken(s, s) == [];
  }

  lemma GrownRest(s: Space, X: set<Node>, s1: Space, flags: nat)
    requires Grown(s, X, flags, s1) && SmallFrames(s.free)
    ensures TablesGrown(s, X, s1) && SmallFrames(s1.free) && |s1.free| <= |s.free|
  {
  }

  /** What a whole call does: it grows the tree for the path of addr and maps the page. */
  ghost predicate Mapped(s: Space, addr: nat, flags: nat, s': Space) {
    TablesGrown(s, Path(PageOf(addr)), s') && FramesPlaced(s, s') && LeafAdded(s, addr, flags, s')
  }

  lemma PathParts(v: nat)
    ensures {NodeOf(v, 3)} + ({NodeOf(v, 2)} + {NodeOf(v, 1)}) == Path(v)
    ensures {NodeOf(v, 3)} + {NodeOf(v, 2)} + {NodeOf(v, 1)} == Path(v)
  {
  }

  lemma LeafPages(s: Space, s1: Space, addr: nat, flags: nat)
    requires |s1.free| <= |s.free| && PagesGrown(s.pages, Taken(s, s1), flags, s1.pages)
    ensures LeafAdded(s, addr, flags, AddLeaf(s1, addr, flags))
  {
    assert Taken(s, AddLeaf(s1, addr, flags)) == Taken(s, s1);
  }

  lemma LeafKeepsTables(s: Space, X: set<Node>, s1: Space, s': Space)
    requires s'.tables == s1.tables && s'.free == s1.free
    requires TablesGrown(s, X, s1) && FramesPlaced(s, s1)
    ensures TablesGrown(s, X, s') && FramesPlaced(s, s')
  {
    assert Taken(s, s') == Taken(s, s1);
  }

  lemma LeafGrows(s: Space, X: set<Node>, s1: Space, addr: nat, flags: nat)
    requires Grown(s, X, flags, s1)
    ensures var s' := AddLeaf(s1, addr, flags);
            TablesGrown(s, X, s') && FramesPlaced(s, s') && LeafAdded(s, addr, flags, s')
  {
    LeafPages(s, s1, addr, flags);
    LeafKeepsTables(s, X, s1, AddLeaf(s1, addr, flags));
  }

  /** The recursive call without its recursion: it takes the least number n of frames that
      pays for the tables missing on the path of addr and on the paths of those n frames,
      adds exactly these tables and maps exactly these frames and the page of addr, each
      new page to itself; it fails exactly when no number of free frames suffices. */
  lemma {:induction false} MapPageGrows(s: Space, addr: nat, flags: nat)
    requires SmallFrames(s.free)
    ensures match MapPage(s, addr, flags)
            case Some(s') => Mapped(s, addr, flags, s')
            case None => OutOfFrames(s, Path(PageOf(addr)))
    decreases |s.free|, 2
  {
    var v := PageOf(addr);
    var X3, X2, X1 := {NodeOf(v, 3)}, {NodeOf(v, 2)}, {NodeOf(v, 1)};
    PathParts(v);
    EnsureTableGrows(s, addr, 3, flags);
    match EnsureTable(s, addr, 3, flags) {
      case None =>
        OutOfFramesMore(s, X3, X2 + X1);
      case Some(s3) =>
        ThenEnsureGrows(s, X3, s3, addr, 2, flags);
        match EnsureTable(s3, addr, 2, flags) {
          case None =>
            OutOfFramesMore(s, X3 + X2, X1);
          case Some(s2) =>
            ThenEnsureGrows(s, X3 + X2, s2, addr, 1, flags);
            match EnsureTable(s2, addr, 1, flags) {
              case None =>
              case Some(s1) =>
                LeafGrows(s, Path(v), s1, addr, flags);
            }
        }
    }
  }

  lemma {:induction false} EnsureTableGrows(s: Space, addr: nat, level: nat, flags: nat)
    requires 1 <= level <= 3 && SmallFrames(s.free)
    ensures match EnsureTable(s, addr, level, flags)
            case Some(s') => Grown(s, {NodeOf(PageOf(addr), level)}, flags, s')
            case None => OutOfFrames(s, {NodeOf(PageOf(addr), level)})
    decreases |s.free|, 0
  {
    var c := NodeOf(PageOf(addr), level);
    if c in s.tables {
      NothingWanted(s, {c}, flags);
    } else if s.free == [] {
      InstallOutOfFrames(s, c);
    } else {
      var f, s1 := s.free[0], Install(s, c);
      FrameIsItsPage(f);
      MapPageGrows(s1, f * PAGE_SIZE, flags);
      match MapPage(s1, f * PAGE_SIZE, flags) {
        case None => InstallOutOfFrames(s, c);
        case Some(s') =>
          InstallTablesGrown(s, c, s');
          InstallFramesPlaced(s, c, s');
      }
    }
  }

  /** One more table on top of what was grown before. */
  lemma {:induction false} ThenEnsureGrows(s: Space, X: set<Node>, s1: Space, addr: nat, level: nat, flags: nat)
    requires 1 <= level <= 3 && SmallFrames(s.free) && Grown(s, X, flags, s1)
    ensures match EnsureTable(s1, addr, level, flags)
            case Some(s2) => Grown(s, X + {NodeOf(PageOf(addr), level)}, flags, s2)
            case None => OutOfFrames(s, X + {NodeOf(PageOf(addr), level)})
    decreases |s.free|, 1
  {
    hide Grown, OutOfFrames, SmallFrames, NodeOf, PageOf, EnsureTable;
    GrownRest(s, X, s1, flags);
    var Y := {NodeOf(PageOf(addr), level)};
    EnsureTableGrows(s1, addr, level, flags);
    match EnsureTable(s1, addr, level, flags) {
      case Some(s2) => GrownTrans(s, X, s1, Y, s2, flags);
      case None => OutOfFramesAfter(s, X, s1, Y);
    }
  }
}
