/** The I/O APIC redirection table behind a register select and a data window
    (section 3.2.4 of the Intel 82093AA datasheet). */
module IoApic {
  import opened Bits

  const IOREDTBL: nat := 0x10
  const MASKED: Word := 0x1_0000
  const REGISTERS: nat := 0x100

  /** The 8-bit register number of the low half of an entry. */
  function LowRegister(entry: nat): (r: nat)
    ensures r < REGISTERS
  {
    (IOREDTBL + entry * 2) % 0x100
  }

  function HighRegister(entry: nat): (r: nat)
    ensures r < REGISTERS
  {
    (IOREDTBL + entry * 2 + 1) % 0x100
  }

  /** The registers after `ioapic_set_entry`. */
  function WithEntry(regs: seq<Word32>, entry: nat, data: Word): (r: seq<Word32>)
    requires |regs| == REGISTERS
    ensures |r| == REGISTERS
  {
    regs[LowRegister(entry) := data % TWO_32][HighRegister(entry) := data / TWO_32]
  }

  /** The 64-bit redirection entry the hardware holds. */
  function EntryOf(regs: seq<Word32>, entry: nat): nat
    requires |regs| == REGISTERS
  {
    regs[LowRegister(entry)] + TWO_32 * regs[HighRegister(entry)]
  }

  /** The registers after masking the first n entries. */
  function Masked(regs: seq<Word32>, n: nat): (r: seq<Word32>)
    requires |regs| == REGISTERS
    ensures |r| == REGISTERS
  {
    if n == 0 then regs else WithEntry(Masked(regs, n - 1), n - 1, MASKED)
  }

  function PinCount(version: Word32): nat {
    version / 0x1_0000 % 0x100 + 1
  }

  lemma HighHalf(data: Word)
    ensures Shr(data, 32) == data / TWO_32 < TWO_32
  {
    hide Shr;
    Pow2Values();
    ShrDivides(data, 32);
  }

  lemma VersionField(version: Word32)
    ensures And(Shr(version, 16), 0xFF) + 1 == PinCount(version) <= 0x100
  {
    hide Shr, And;
    Pow2Values();
    ShrDivides(version, 16);
    AndLowMask(version / 0x1_0000, 8);
  }

  lemma RegistersDiffer(e: nat, other: nat)
    requires e < 128 && other < 128
    ensures (16 + 2 * e) % 256 == (16 + 2 * other) % 256 ==> e == other
  {
    assert (16 + 2 * e) % 256 == if e < 120 then 16 + 2 * e else 2 * e - 240;
    assert (16 + 2 * other) % 256 == if other < 120 then 16 + 2 * other else 2 * other - 240;
  }

  /** The byte behind an even one is the next. */
  lemma EvenByte(n: nat)
    requires n % 2 == 0
    ensures n % 256 % 2 == 0 && (n + 1) % 256 == n % 256 + 1
  {
    var r := n % 256;
    assert n == 256 * (n / 256) + r;
    DivModUnique(n + 1, 256, n / 256, r + 1);
  }

  lemma RegisterPair(e: Byte)
    ensures LowRegister(e) % 2 == 0 && HighRegister(e) == LowRegister(e) + 1
    ensures LowRegister(e) == (16 + 2 * (e % 128)) % 256
  {
    var low, reduced := 16 + e * 2, 16 + 2 * (e % 128);
    assert low == reduced + 256 * (e / 128);
    ModMultiple(reduced, e / 128, 256);
    EvenByte(low);
  }

  /** Setting an entry stores all 64 bits and leaves every entry alone whose number differs
      modulo 128, which is when the registers differ. */
  lemma SetEntryIff(regs: seq<Word32>, e: Byte, data: Word, other: Byte)
    requires |regs| == REGISTERS
    ensures EntryOf(WithEntry(regs, e, data), e) == data
    ensures (LowRegister(e) == LowRegister(other) || HighRegister(e) == HighRegister(other)) <==> e % 128 == other % 128
    ensures e % 128 != other % 128 ==> EntryOf(WithEntry(regs, e, data), other) == EntryOf(regs, other)
  {
    hide LowRegister, HighRegister;
    RegisterPair(e);
    RegisterPair(other);
    RegistersDiffer(e % 128, other % 128);
    assert data == data % TWO_32 + TWO_32 * (data / TWO_32);
  }

  lemma SameRegisters(regs: seq<Word32>, e: Byte, other: Byte)
    requires |regs| == REGISTERS
    ensures e % 128 == other % 128 ==> EntryOf(regs, e) == EntryOf(regs, other)
  {
    RegisterPair(e);
    RegisterPair(other);
  }

  lemma RegistersOf(e: nat)
    requires e < 120
    ensures LowRegister(e) == IOREDTBL + 2 * e && HighRegister(e) == IOREDTBL + 2 * e + 1
  {
  }

  lemma MaskBit()
    ensures MASKED == Pow2(16) == 0x1_0000
  {
    Pow2Values();
  }

  lemma MaskedHalves(regs: seq<Word32>, e: Byte)
    requires |regs| == REGISTERS && EntryOf(regs, e) == 0x1_0000
    ensures regs[(0x10 + 2 * e) % 0x100] == 0x1_0000 && regs[(0x11 + 2 * e) % 0x100] == 0
  {
  }

  /** Every entry has the mask bit of the datasheet, bit 16, and no other bit, also where the
      register number wraps; for up to 120 entries no other register changes. */
  lemma {:induction false} MaskedExactly(regs: seq<Word32>, n: nat)
    requires |regs| == REGISTERS && n <= 0x100
    ensures forall e: nat :: e < n ==> EntryOf(Masked(regs, n), e) == Pow2(16)
    ensures forall e: nat :: e < n ==>
              Masked(regs, n)[(0x10 + 2 * e) % 0x100] == 0x1_0000 && Masked(regs, n)[(0x11 + 2 * e) % 0x100] == 0
    ensures n <= 120 ==>
              forall r :: 0 <= r < 0x100 && !(0x10 <= r < 0x10 + 2 * n) ==> Masked(regs, n)[r] == regs[r]
  {
    hide LowRegister, HighRegister, EntryOf, Pow2;
    MaskBit();
    if n > 0 {
      MaskedExactly(regs, n - 1);
      if n <= 120 { RegistersOf(n - 1); }
      forall e: nat | e < n
        ensures EntryOf(Masked(regs, n), e) == MASKED
        ensures Masked(regs, n)[(0x10 + 2 * e) % 0x100] == 0x1_0000 && Masked(regs, n)[(0x11 + 2 * e) % 0x100] == 0
      {
        SetEntryIff(Masked(regs, n - 1), n - 1, MASKED, e);
        SameRegisters(Masked(regs, n), n - 1, e);
        MaskedHalves(Masked(regs, n), e);
      }
    }
  }

  class Registers {
    const regs: array<Word32>
    var select: Word32

    constructor ()
      ensures regs.Length == REGISTERS && fresh(regs)
    {
      regs := new Word32[REGISTERS];
      select := 0;
    }

    /** `ioapic_write`: selects a register and writes it through the window. */
    method Write(reg: Byte, value: Word32)
      requires regs.Length == REGISTERS
      modifies this`select, regs
      ensures select == reg && regs[..] == old(regs[..])[reg := value]
    {
      select := reg;
      regs[select] := value;
    }

    /** `ioapic_set_entry`, with the register number cut to 8 bits. */
    method SetEntry(entry: Byte, data: Word)
      requires regs.Length == REGISTERS
      modifies this`select, regs
      ensures regs[..] == WithEntry(old(regs[..]), entry, data)
      ensures regs[..] == old(regs[..])[(0x10 + 2 * entry) % 0x100 := data % 0x1_0000_0000]
                                       [(0x11 + 2 * entry) % 0x100 := data / 0x1_0000_0000]
    {
      Write((IOREDTBL + entry * 2) % 0x100, data % TWO_32);
      HighHalf(data);
      Write((IOREDTBL + entry * 2 + 1) % 0x100, Shr(data, 32));
    }

    /** `ioapic_init`, with what was read from the version register as input. */
    method Init(version: Word32)
      requires regs.Length == REGISTERS
      modifies this`select, regs
      ensures regs[..] == Masked(old(regs[..]), version / 0x1_0000 % 0x100 + 1)
      ensures forall e: nat :: e <= version / 0x1_0000 % 0x100 ==>
                regs[(0x10 + 2 * e) % 0x100] == 0x1_0000 && regs[(0x11 + 2 * e) % 0x100] == 0
    {
      VersionField(version);
      var count := And(Shr(version, 16), 0xFF) + 1;
      var i := 0;
      while i < count
        invariant i <= count
        invariant regs[..] == Masked(old(regs[..]), i)
      {
        SetEntry(i, MASKED);
        i := i + 1;
      }
      MaskedExactly(old(regs[..]), count);
    }
  }

  /** From entry 120 on the register number wraps, and register 0 holds half an entry. */
  lemma {:induction false} MaskedWraps(regs: seq<Word32>, n: nat)
    requires |regs| == REGISTERS && 120 < n <= 0x100
    ensures Masked(regs, n)[0] == MASKED
  {
    if n > 121 {
      MaskedWraps(regs, n - 1);
    }
    RegisterPair(n - 1);
  }

  /** Initialisation leaves the registers below the table alone exactly for at most 120 entries. */
  lemma IdRegistersKeptIff(n: nat)
    requires n <= 0x100
    ensures (forall regs: seq<Word32>, r :: |regs| == REGISTERS && 0 <= r < IOREDTBL ==> Masked(regs, n)[r] == regs[r])
       <==> n <= 120
  {
    if n <= 120 {
      forall regs: seq<Word32>, r | |regs| == REGISTERS && 0 <= r < IOREDTBL
        ensures Masked(regs, n)[r] == regs[r]
      {
        MaskedExactly(regs, n);
      }
    } else {
      var zeros: seq<Word32> := seq(REGISTERS, _ => 0);
      MaskedWraps(zeros, n);
      assert Masked(zeros, n)[0] != zeros[0];
    }
  }
}
