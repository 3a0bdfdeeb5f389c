/** The words of the page tables: flag bits, the frame address field and the four
    table indices of an address, as `map_page` and `unmap_page` compute them. */
module PageWords {
  import opened Bits

  const PAGE_SIZE: nat := 0x1000
  const PAGE_BIT_P_PRESENT: nat := 1
  const PAGE_ADDR_MASK: nat := 0x000f_ffff_ffff_f000
  const NOT_PRESENT_MASK: nat := 0xffff_ffff_ffff_fffe   // ~(PAGE_BIT_P_PRESENT), sign-extended

  const PAGES: nat := 0x10_0000_0000    // 2^36 pages are reachable through 4 * 9 index bits
  const FRAMES: nat := 0x100_0000_0000  // 2^40 frames fit the 40 bits PAGE_ADDR_MASK keeps

  function IndexAt(addr: nat, shift: nat): nat {
    And(Shr(addr, shift), 0x1FF)
  }

  predicate IsPresent(entry: nat) {
    And(entry, PAGE_BIT_P_PRESENT) != 0
  }

  /** The table or page address an entry holds. */
  function AddressIn(entry: nat): (a: nat)
    ensures a <= entry
  {
    And(entry, PAGE_ADDR_MASK)
  }

  function MakeEntry(addr: nat, flags: nat): nat {
    Or(And(addr, PAGE_ADDR_MASK), flags)
  }

  function ClearedEntry(addr: nat): nat {
    And(And(addr, PAGE_ADDR_MASK), NOT_PRESENT_MASK)
  }

  /** The page-size bit of the Intel SDM (volume 3A, section 4.5), which the kernel never looks at. */
  predicate IsHuge(entry: nat) {
    entry / 0x80 % 2 == 1
  }

  /** The virtual page whose slot an address selects: bits 12 to 47. */
  function PageOf(addr: nat): (v: nat)
    ensures v < PAGES
  {
    addr / PAGE_SIZE % PAGES
  }

  /** The frame an address or entry names: bits 12 to 51. */
  function FrameIn(entry: nat): (p: nat)
    ensures p < FRAMES
  {
    entry / PAGE_SIZE % FRAMES
  }

  lemma AddressInIsFrame(entry: nat)
    ensures AddressIn(entry) == FrameIn(entry) * PAGE_SIZE
    ensures AddressIn(entry) == entry / 0x1000 % 0x100_0000_0000 * 0x1000
  {
    hide And;
    Pow2Values();
    assert FieldMask(40, 12) == PAGE_ADDR_MASK;
    AndFieldMask(entry, 40, 12);
  }

  lemma PresentIsOdd(entry: nat)
    ensures IsPresent(entry) <==> entry % 2 == 1
  {
    AndOne(entry);
  }

  lemma ParityOfSum(p: nat, flags: nat)
    ensures (p * PAGE_SIZE + flags) % 2 == flags % 2
  {
    ModMultiple(flags, p * 0x800, 2);
  }

  lemma HugeOfSum(p: nat, flags: nat)
    ensures IsHuge(p * PAGE_SIZE + flags) <==> IsHuge(flags)
  {
    DivModUnique(p * PAGE_SIZE + flags, 0x80, p * 0x20 + flags / 0x80, flags % 0x80);
    ModMultiple(flags / 0x80, p * 0x10, 2);
  }

  lemma SplitEntry(p: nat, flags: nat)
    requires p < FRAMES && flags < PAGE_SIZE
    ensures p * PAGE_SIZE + flags < TWO_64
    ensures FrameIn(p * PAGE_SIZE + flags) == p
    ensures (p * PAGE_SIZE + flags) % 2 == flags % 2
    ensures IsHuge(p * PAGE_SIZE + flags) <==> IsHuge(flags)
  {
    ParityOfSum(p, flags);
    HugeOfSum(p, flags);
    hide IsHuge;
    DivModUnique(p * PAGE_SIZE + flags, PAGE_SIZE, p, flags);
  }

  /** What one installed entry holds. */
  lemma EntryFields(addr: nat, flags: nat)
    requires flags < PAGE_SIZE
    ensures MakeEntry(addr, flags) == FrameIn(addr) * PAGE_SIZE + flags
    ensures MakeEntry(addr, flags) == addr / 0x1000 % 0x100_0000_0000 * 0x1000 + flags
    ensures MakeEntry(addr, flags) < TWO_64
    ensures FrameIn(MakeEntry(addr, flags)) == FrameIn(addr)
    ensures IsPresent(MakeEntry(addr, flags)) <==> flags % 2 == 1
    ensures IsHuge(MakeEntry(addr, flags)) <==> IsHuge(flags)
  {
    hide And, Or, FrameIn;
    AddressInIsFrame(addr);
    var base := FrameIn(addr) * PAGE_SIZE;
    assert Pow2(12) == PAGE_SIZE;
    OrDisjoint(base, flags, 12);
    SplitEntry(FrameIn(addr), flags);
    PresentIsOdd(base + flags);
  }

  lemma EvenFrame(p: nat)
    ensures p * PAGE_SIZE % 2 == 0 && !IsHuge(p * PAGE_SIZE)
  {
    assert p * PAGE_SIZE / 0x80 == p * 0x20;
  }

  lemma HugeOr(f: nat, flags: nat)
    ensures IsHuge(Or(f * PAGE_SIZE, flags)) <==> IsHuge(flags)
  {
    hide And, Or, Shr;
    var base := f * PAGE_SIZE;
    assert Pow2(7) == 0x80;
    OrHigh(base, flags, 7);
    ShrDivides(base, 7);
    ShrDivides(flags, 7);
    ShrDivides(Or(base, flags), 7);
    OrStep(base / 0x80, flags / 0x80);
    EvenFrame(f);
  }

  lemma HighOr(f: nat, flags: Word32)
    ensures Or(f * PAGE_SIZE, flags) / PAGE_SIZE == Or(f, flags / PAGE_SIZE)
  {
    hide And, Or, Shr;
    var base := f * PAGE_SIZE;
    assert Pow2(12) == PAGE_SIZE;
    OrHigh(base, flags, 12);
    ShrDivides(base, 12);
    ShrDivides(flags, 12);
    ShrDivides(Or(base, flags), 12);
  }

  lemma OrOfFrames(f: nat, g: nat)
    requires f < FRAMES && g < FRAMES
    ensures Or(f, g) < FRAMES
  {
    hide Or;
    Pow2Values();
    OrLow(f, g, 40);
  }

  lemma FrameOr(f: nat, flags: Word32)
    requires f < FRAMES
    ensures FrameIn(Or(f * PAGE_SIZE, flags)) == Or(f, flags / PAGE_SIZE)
  {
    hide And, Or, Shr, Pow2;
    OrOfFrames(f, flags / PAGE_SIZE);
    HighOr(f, flags);
  }

  /** The page-size bit is bit 7. */
  lemma HugeIsBit7(entry: nat)
    ensures IsHuge(entry) <==> entry / 0x80 % 2 == 1
  {
  }

  /** What one installed entry holds for flags of any size: address bits of the flags end up
      in the frame number. */
  lemma EntryBits(addr: nat, flags: Word32)
    ensures MakeEntry(addr, flags) < TWO_64
    ensures IsPresent(MakeEntry(addr, flags)) <==> flags % 2 == 1
    ensures IsHuge(MakeEntry(addr, flags)) <==> IsHuge(flags)
    ensures IsHuge(MakeEntry(addr, flags)) <==> flags / 0x80 % 2 == 1
    ensures FrameIn(MakeEntry(addr, flags)) == Or(FrameIn(addr), flags / PAGE_SIZE)
  {
    hide And, Or, IsHuge, FrameIn;
    AddressInIsFrame(addr);
    var f := FrameIn(addr);
    var base := f * PAGE_SIZE;
    var e := Or(base, flags);
    EvenFrame(f);
    OrStep(base, flags);
    PresentIsOdd(e);
    HugeOr(f, flags);
    HugeIsBit7(flags);
    FrameOr(f, flags);
  }

  /** The flags `map_page` uses: those it is given, with the present bit. */
  function Present(flags: Word32): (fl: Word32)
    ensures fl % 2 == 1 && fl / 2 == flags / 2
  {
    OrOne(flags);
    Or(flags, PAGE_BIT_P_PRESENT)
  }

  lemma OddAbove(flags: nat)
    ensures IsHuge(flags + 1 - flags % 2) <==> IsHuge(flags)
  {
    var h, r := flags / 0x80, flags % 0x80;
    assert r % 2 == flags % 2;
    DivModUnique(flags + 1 - flags % 2, 0x80, h, r + 1 - r % 2);
  }

  lemma PresentFlags(flags: Word32)
    ensures Present(Present(flags)) == Present(flags)
    ensures flags < PAGE_SIZE <==> Present(flags) < PAGE_SIZE
    ensures IsHuge(Present(flags)) <==> IsHuge(flags)
  {
    hide Or, IsHuge;
    OrOne(flags);
    OrOne(Present(flags));
    OddAbove(flags);
  }

  /** An entry for addr names the page of addr: bits 48 to 51 of the address are clear, and the
      flags have no address bit that the page number has not. */
  predicate NamesPage(addr: nat, flags: nat) {
    addr / 0x1_0000_0000_0000 % 16 == 0 && Or(PageOf(addr), flags / PAGE_SIZE) == PageOf(addr)
  }

  lemma OrNothing(v: nat)
    ensures Or(v, 0) == v
  {
  }

  lemma FrameAndPage(addr: nat)
    ensures FrameIn(addr) == PageOf(addr) + PAGES * (addr / 0x1_0000_0000_0000 % 16)
  {
    var v := addr / PAGE_SIZE;
    assert addr / 0x1_0000_0000_0000 == v / PAGES;
    assert v % FRAMES == v % PAGES + PAGES * (v / PAGES % 16);
  }

  /** The frame an address names is its page exactly when bits 48 to 51 are clear. */
  lemma FrameIsPageIff(addr: nat)
    ensures FrameIn(addr) == PageOf(addr) <==> addr / 0x1_0000_0000_0000 % 16 == 0
  {
    FrameAndPage(addr);
  }

  lemma PageBelowFrame(addr: nat)
    ensures PageOf(addr) <= FrameIn(addr)
  {
    FrameAndPage(addr);
  }

  lemma NamesPageIff(addr: nat, flags: Word32)
    ensures FrameIn(MakeEntry(addr, flags)) == PageOf(addr) <==> NamesPage(addr, flags)
    ensures flags < PAGE_SIZE ==> (NamesPage(addr, flags) <==> addr / 0x1_0000_0000_0000 % 16 == 0)
  {
    EntryBits(addr, flags);
    FrameIsPageIff(addr);
    PageBelowFrame(addr);
    OrNothing(PageOf(addr));
    hide Or, FrameIn, PageOf, MakeEntry;
  }

  lemma FrameOfAddress(p: nat)
    requires p < FRAMES
    ensures FrameIn(p * PAGE_SIZE) == p
  {
  }

  lemma LargeFlagsLeak(flags: Word32)
    requires flags >= PAGE_SIZE
    ensures AddressIn(MakeEntry(0, flags)) != 0
  {
    assert MakeEntry(0, flags) == flags;
    hide And;
    AddressInIsFrame(flags);
  }

  /** An entry built from a frame and flags gives the frame back, for every frame,
      exactly when the flags stay clear of the address field. */
  lemma EntryRoundTripIff(flags: Word32)
    ensures (forall p: nat | p < FRAMES :: AddressIn(MakeEntry(p * PAGE_SIZE, flags)) == p * PAGE_SIZE)
       <==> flags < PAGE_SIZE
  {
    hide FrameIn, And, MakeEntry, AddressIn;
    if flags < PAGE_SIZE {
      forall p: nat | p < FRAMES
        ensures AddressIn(MakeEntry(p * PAGE_SIZE, flags)) == p * PAGE_SIZE
      {
        FrameOfAddress(p);
        EntryFields(p * PAGE_SIZE, flags);
        AddressInIsFrame(MakeEntry(p * PAGE_SIZE, flags));
      }
    } else {
      LargeFlagsLeak(flags);
      assert AddressIn(MakeEntry(0 * PAGE_SIZE, flags)) != 0;
    }
  }

  lemma NotPresentMask()
    ensures Pow2(63) == 0x8000_0000_0000_0000 && FieldMask(63, 1) == NOT_PRESENT_MASK
  {
    Pow2Values();
    assert Pow2(63) == 0x8000_0000_0000_0000;
  }

  /** What `unmap_page` leaves in a slot: the page address, not present. */
  lemma ClearedFields(addr: nat)
    ensures ClearedEntry(addr) == FrameIn(addr) * PAGE_SIZE < TWO_64
    ensures ClearedEntry(addr) == addr / 0x1000 % 0x100_0000_0000 * 0x1000
    ensures !IsPresent(ClearedEntry(addr)) && !IsHuge(ClearedEntry(addr))
  {
    hide And, FrameIn, FieldMask, Pow2;
    AddressInIsFrame(addr);
    NotPresentMask();
    var base := FrameIn(addr) * PAGE_SIZE;
    AndAllButLowest(base, 63);
    EvenFrame(FrameIn(addr));
    PresentIsOdd(base);
  }

  lemma IndexIsField(addr: nat, shift: nat)
    ensures IndexAt(addr, shift) == addr / Pow2(shift) % 512
  {
    ShrDivides(addr, shift);
    assert Pow2(9) == 512;
    AndLowMask(Shr(addr, shift), 9);
  }

  lemma DropHigh(v: nat, q: nat, d: nat)
    requires q > 0 && d > 0 && q * (512 * d) == PAGES
    ensures v / q % 512 == v % PAGES / q % 512
  {
    var w, u := v / PAGES, v % PAGES;
    assert PAGES * w == q * (512 * (d * w)) by {
      assert q * (512 * d) * w == q * (512 * d * w);
      assert 512 * d * w == 512 * (d * w);
    }
    DivModUnique(v, q, 512 * (d * w) + u / q, u % q) by {
      assert q * (512 * (d * w) + u / q) == q * (512 * (d * w)) + q * (u / q);
    }
    ModMultiple(u / q, d * w, 512);
  }

  lemma DigitsBelow(v: nat)
    ensures v % 512 == v % PAGES % 512
    ensures v / 512 % 512 == v % PAGES / 512 % 512
    ensures v / 0x4_0000 % 512 == v % PAGES / 0x4_0000 % 512
    ensures v / 0x800_0000 % 512 == v % PAGES / 0x800_0000 % 512
  {
    DropHigh(v, 512, 0x4_0000);
    DropHigh(v, 0x4_0000, 0x200);
    DropHigh(v, 0x800_0000, 1);
    DropHigh(v, 1, 0x800_0000);
  }

  /** Shifting out page-number digits commutes with dropping the bits above the page number. */
  lemma DigitsOfPage(addr: nat)
    ensures addr / 0x1000 % 512 == PageOf(addr) % 512
    ensures addr / 0x20_0000 % 512 == PageOf(addr) / 512 % 512
    ensures addr / 0x4000_0000 % 512 == PageOf(addr) / 0x4_0000 % 512
    ensures addr / 0x80_0000_0000 % 512 == PageOf(addr) / 0x800_0000 % 512
  {
    DigitsBelow(addr / PAGE_SIZE);
    assert addr / 0x20_0000 == addr / 0x1000 / 512;
    assert addr / 0x4000_0000 == addr / 0x1000 / 0x4_0000;
    assert addr / 0x80_0000_0000 == addr / 0x1000 / 0x800_0000;
  }

  /** The four indices are the base-512 digits of the page number. */
  lemma IndexDigits(addr: nat)
    ensures IndexAt(addr, 12) == PageOf(addr) % 512
    ensures IndexAt(addr, 21) == PageOf(addr) / 512 % 512
    ensures IndexAt(addr, 30) == PageOf(addr) / 0x4_0000 % 512
    ensures IndexAt(addr, 39) == PageOf(addr) / 0x800_0000 % 512
    ensures IndexAt(addr, 12) == addr / 0x1000 % 512 && IndexAt(addr, 21) == addr / 0x20_0000 % 512
    ensures IndexAt(addr, 30) == addr / 0x4000_0000 % 512 && IndexAt(addr, 39) == addr / 0x80_0000_0000 % 512
  {
    Pow2Values();
    IndexIsField(addr, 12);
    IndexIsField(addr, 21);
    IndexIsField(addr, 30);
    IndexIsField(addr, 39);
    DigitsOfPage(addr);
  }

  /** A page number is put together from its base-512 digits. */
  lemma PageFromDigits(v: nat)
    requires v < PAGES
    ensures v == v / 0x800_0000 % 512 * 0x800_0000 + v / 0x4_0000 % 512 * 0x4_0000 + v / 512 % 512 * 512 + v % 512
  {
    assert v / 0x4_0000 == v / 512 / 512;
    assert v / 0x800_0000 == v / 0x4_0000 / 512;
    assert v / 0x800_0000 < 512;
  }

  lemma PageAndOffset(a: nat)
    ensures PageOf(a) * 0x1000 + a % 0x1000 == a % 0x1_0000_0000_0000
  {
    var v := a / 0x1000;
    DivModUnique(a, 0x1_0000_0000_0000, v / PAGES, v % PAGES * 0x1000 + a % 0x1000);
  }

  /** Two addresses select the same four slots exactly when they lie in the same page,
      and the indices recombine to the page address. */
  lemma IndicesIdentifyPage(a: nat, b: nat)
    ensures (IndexAt(a, 39) == IndexAt(b, 39) && IndexAt(a, 30) == IndexAt(b, 30) &&
             IndexAt(a, 21) == IndexAt(b, 21) && IndexAt(a, 12) == IndexAt(b, 12))
       <==> PageOf(a) == PageOf(b)
    ensures IndexAt(a, 39) * 0x80_0000_0000 + IndexAt(a, 30) * 0x4000_0000 +
            IndexAt(a, 21) * 0x20_0000 + IndexAt(a, 12) * 0x1000 == PageOf(a) * PAGE_SIZE
    ensures PageOf(a) * PAGE_SIZE + a % 0x1000 == a % 0x1_0000_0000_0000
  {
    PageAndOffset(a);
    IndexDigits(a);
    IndexDigits(b);
    PageFromDigits(PageOf(a));
    PageFromDigits(PageOf(b));
  }
}
