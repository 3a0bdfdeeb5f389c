/** PCI configuration space behind an address latch and a data port. */
module Pci {
  import opened Bits

  /** The 32-bit configuration register of a function, by (bus, slot, function, register). */
  type Config = (nat, nat, nat, nat) -> Word32

  datatype PciDevice = PciDevice(bus: Byte, slot: Byte, func: Byte, valid: bool)

  function Or5(a: nat, b: nat, c: nat, d: nat, e: nat): nat {
    Or(Or(Or(Or(a, b), c), d), e)
  }

  /** The address word `pci_read_word` builds. */
  function Address(bus: Byte, slot: Byte, func: Byte, offset: Byte): nat {
    Or5(bus * 0x1_0000, slot * 0x800, func * 0x100, And(offset, 0xFC), 0x8000_0000)
  }

  /** Host bridge decoding of the latch (section 3.2.2.3.2 of the PCI Local Bus Specification). */
  function BusField(a: nat): nat { a / 0x1_0000 % 0x100 }
  function SlotField(a: nat): nat { a / 0x800 % 32 }
  function FuncField(a: nat): nat { a / 0x100 % 8 }
  function RegisterField(a: nat): nat { a / 4 % 64 }

  function PortData(config: Config, latch: Word32): Word32 {
    if latch / 0x8000_0000 == 1 then config(BusField(latch), SlotField(latch), FuncField(latch), RegisterField(latch))
    else 0xFFFF_FFFF
  }

  lemma OffsetMask(offset: Byte)
    ensures And(offset, 0xFC) == offset / 4 * 4
    ensures And(offset, 2) == offset / 2 % 2 * 2
  {
    hide And;
    assert Pow2(1) == 2 && Pow2(2) == 4 && Pow2(6) == 64;
    assert FieldMask(6, 2) == 0xFC && FieldMask(1, 1) == 2;
    AndFieldMask(offset, 6, 2);
    AndFieldMask(offset, 1, 1);
  }

  lemma FieldSizes()
    ensures Pow2(0) == 1 && Pow2(1) == 2 && Pow2(2) == 4 && Pow2(3) == 8 && Pow2(5) == 32
    ensures Pow2(6) == 64 && Pow2(8) == 0x100
    ensures Pow2(11) == 0x800 && Pow2(16) == 0x1_0000 && Pow2(31) == 0x8000_0000
  {
    Pow2Values();
    assert Pow2(31) == 0x8000_0000;
  }

  lemma AddressFits(bus: Byte, slot: Byte, func: Byte, offset: Byte)
    ensures Address(bus, slot, func, offset) < TWO_32
  {
  }

  /** Bits k to k + w - 1. */
  function Field(x: nat, k: nat, w: nat): nat {
    Shr(x, k) % Pow2(w)
  }

  /** A field of or-ed words is the or of their fields. */
  lemma OrFields(x: nat, y: nat, k: nat, w: nat)
    ensures Field(Or(x, y), k, w) == Or(Field(x, k, w), Field(y, k, w))
  {
    hide Or, Shr;
    OrHigh(x, y, k);
    OrLow(Shr(x, k), Shr(y, k), w);
  }

  lemma Or5Fields(a: nat, b: nat, c: nat, d: nat, e: nat, k: nat, w: nat)
    ensures Field(Or5(a, b, c, d, e), k, w) ==
              Or5(Field(a, k, w), Field(b, k, w), Field(c, k, w), Field(d, k, w), Field(e, k, w))
  {
    hide Or, Field;
    OrFields(a, b, k, w);
    OrFields(Or(a, b), c, k, w);
    OrFields(Or(Or(a, b), c), d, k, w);
    OrFields(Or(Or(Or(a, b), c), d), e, k, w);
  }

  lemma FieldByDivision(x: nat, k: nat, w: nat)
    ensures Field(x, k, w) == x / Pow2(k) % Pow2(w)
  {
    ShrDivides(x, k);
  }

  lemma AddressField(bus: Byte, slot: Byte, func: Byte, offset: Byte, k: nat, w: nat)
    ensures Address(bus, slot, func, offset) / Pow2(k) % Pow2(w) ==
              Or5(bus * 0x1_0000 / Pow2(k) % Pow2(w), slot * 0x800 / Pow2(k) % Pow2(w),
                  func * 0x100 / Pow2(k) % Pow2(w),
                  offset / 4 * 4 / Pow2(k) % Pow2(w), 0x8000_0000 / Pow2(k) % Pow2(w))
  {
    hide Or5, And, Field, Pow2;
    OffsetMask(offset);
    Or5Fields(bus * 0x1_0000, slot * 0x800, func * 0x100, offset / 4 * 4, 0x8000_0000, k, w);
    FieldByDivision(Address(bus, slot, func, offset), k, w);
    FieldByDivision(bus * 0x1_0000, k, w);
    FieldByDivision(slot * 0x800, k, w);
    FieldByDivision(func * 0x100, k, w);
    FieldByDivision(offset / 4 * 4, k, w);
    FieldByDivision(0x8000_0000, k, w);
  }

  lemma OrOfOne(x: nat, y: nat)
    ensures Or5(x, y, 0, 0, 0) == Or(x, y) && Or5(0, x, y, 0, 0) == Or(x, y)
    ensures Or5(0, 0, x, 0, 0) == x && Or5(0, 0, 0, x, 0) == x && Or5(0, 0, 0, 0, x) == x
  {
  }

  /** The bus, slot and function that answer: the bits of a slot or function that do not fit
      their field end up in the next one. */
  function Reached(bus: Byte, slot: Byte, func: Byte): (nat, nat, nat) {
    (Or(bus, slot / 32), Or(slot % 32, func / 8), func % 8)
  }

  lemma BusDecodes(bus: Byte, slot: Byte, func: Byte, offset: Byte)
    ensures BusField(Address(bus, slot, func, offset)) == Or(bus, slot / 32)
  {
    hide Address, Or5, Or, Pow2;
    FieldSizes();
    AddressField(bus, slot, func, offset, 16, 8);
    assert bus * 0x1_0000 / 0x1_0000 % 0x100 == bus;
    assert slot * 0x800 / 0x1_0000 % 0x100 == slot / 32;
    assert func * 0x100 / 0x1_0000 == 0 && offset / 4 * 4 / 0x1_0000 == 0;
    OrOfOne(bus, slot / 32);
  }

  lemma SlotDecodes(bus: Byte, slot: Byte, func: Byte, offset: Byte)
    ensures SlotField(Address(bus, slot, func, offset)) == Or(slot % 32, func / 8)
  {
    hide Address, Or5, Or, Pow2;
    FieldSizes();
    AddressField(bus, slot, func, offset, 11, 5);
    assert bus * 0x1_0000 / 0x800 == 32 * bus;
    assert slot * 0x800 / 0x800 == slot;
    assert func * 0x100 / 0x800 % 32 == func / 8;
    assert offset / 4 * 4 / 0x800 == 0;
    OrOfOne(slot % 32, func / 8);
  }

  lemma FuncDecodes(bus: Byte, slot: Byte, func: Byte, offset: Byte)
    ensures FuncField(Address(bus, slot, func, offset)) == func % 8
  {
    hide Address, Or5, Or, Pow2;
    FieldSizes();
    AddressField(bus, slot, func, offset, 8, 3);
    assert bus * 0x1_0000 / 0x100 == 8 * (32 * bus);
    assert slot * 0x800 / 0x100 == 8 * slot;
    assert func * 0x100 / 0x100 == func;
    assert offset / 4 * 4 / 0x100 == 0;
    OrOfOne(func % 8, 0);
  }

  lemma RegisterDecodes(bus: Byte, slot: Byte, func: Byte, offset: Byte)
    ensures RegisterField(Address(bus, slot, func, offset)) == offset / 4
  {
    hide Address, Or5, Or, Pow2;
    FieldSizes();
    AddressField(bus, slot, func, offset, 2, 6);
    assert bus * 0x1_0000 / 4 == 64 * (256 * bus);
    assert slot * 0x800 / 4 == 64 * (8 * slot);
    assert func * 0x100 / 4 == 64 * func;
    assert offset / 4 * 4 / 4 == offset / 4;
    OrOfOne(offset / 4, 0);
  }

  lemma EnableDecodes(bus: Byte, slot: Byte, func: Byte, offset: Byte)
    ensures Address(bus, slot, func, offset) / 0x8000_0000 % 2 == 1
  {
    hide Address, Or5, Or, Pow2;
    FieldSizes();
    AddressField(bus, slot, func, offset, 31, 1);
    assert bus * 0x1_0000 / 0x8000_0000 == 0 && slot * 0x800 / 0x8000_0000 == 0;
    assert func * 0x100 / 0x8000_0000 == 0 && offset / 4 * 4 / 0x8000_0000 == 0;
    OrOfOne(1, 0);
  }

  /** The latch decodes to the function reached and the register of the offset. */
  lemma AddressDecodes(bus: Byte, slot: Byte, func: Byte, offset: Byte)
    ensures var a := Address(bus, slot, func, offset);
            && (BusField(a), SlotField(a), FuncField(a)) == Reached(bus, slot, func)
            && RegisterField(a) == offset / 4 && a / 0x8000_0000 == 1
  {
    hide Address, Or5, Or, Pow2;
    FieldSizes();
    AddressFits(bus, slot, func, offset);
    BusDecodes(bus, slot, func, offset);
    SlotDecodes(bus, slot, func, offset);
    FuncDecodes(bus, slot, func, offset);
    RegisterDecodes(bus, slot, func, offset);
    EnableDecodes(bus, slot, func, offset);
  }

  lemma ReachesItself(bus: Byte, slot: Byte, func: Byte)
    ensures slot < 32 && func < 8 ==> Reached(bus, slot, func) == (bus, slot, func)
  {
  }

  /** While slot and function fit their fields, the latch is the sum of the fields in their places
      and the enable bit. */
  lemma AddressSum(bus: Byte, slot: Byte, func: Byte, offset: Byte)
    requires slot < 32 && func < 8
    ensures Address(bus, slot, func, offset) ==
              0x8000_0000 + bus * 0x1_0000 + slot * 0x800 + func * 0x100 + offset / 4 * 4
  {
    hide Or, And, Pow2;
    FieldSizes();
    OffsetMask(offset);
    var a := bus * 0x1_0000;
    OrDisjoint(a, slot * 0x800, 16);
    assert a + slot * 0x800 == 0x800 * (bus * 0x20 + slot);
    OrDisjoint(a + slot * 0x800, func * 0x100, 11);
    assert a + slot * 0x800 + func * 0x100 == 0x100 * (bus * 0x100 + slot * 8 + func);
    OrDisjoint(a + slot * 0x800 + func * 0x100, offset / 4 * 4, 8);
    var sum := a + slot * 0x800 + func * 0x100 + offset / 4 * 4;
    OrSymmetric(sum, 0x8000_0000);
    OrDisjoint(0x8000_0000, sum, 31);
  }

  /** The latch decodes to the fields that were packed exactly when slot and function fit
      their fields. */
  lemma AddressDecodesIff(bus: Byte, slot: Byte, func: Byte, offset: Byte)
    ensures var a := Address(bus, slot, func, offset);
            && BusField(a) == bus && SlotField(a) == slot && FuncField(a) == func
            && RegisterField(a) == offset / 4 && a / 0x8000_0000 == 1
            <==> slot < 32 && func < 8
  {
    hide Address;
    AddressDecodes(bus, slot, func, offset);
  }

  /** The upper half of the class code register holds base class and subclass. */
  predicate Matches(config: Config, classId: Byte, subclassId: Byte, bus: Byte, slot: Byte, func: Byte) {
    config(bus, slot, func, 2) / 0x1_0000 == 0x100 * classId + subclassId
  }

  /** Shifting by 0 or 16 and masking selects a half. */
  lemma HalfWord(data: Word32, offset: Byte)
    ensures And(Shr(data, And(offset, 2) * 8), 0xFFFF) ==
              if offset / 2 % 2 == 1 then data / 0x1_0000 else data % 0x1_0000
  {
    hide And, Shr, Pow2;
    FieldSizes();
    OffsetMask(offset);
    if offset / 2 % 2 == 1 {
      ShrDivides(data, 16);
      AndLowMask(data / 0x1_0000, 16);
      assert data / 0x1_0000 % 0x1_0000 == data / 0x1_0000;
    } else {
      ShrDivides(data, 0);
      AndLowMask(data, 16);
    }
  }

  lemma MatchesMeans(config: Config, classId: Byte, subclassId: Byte)
    ensures forall b: Byte, s: Byte, f: Byte ::
              Matches(config, classId, subclassId, b, s, f) <==>
                config(b, s, f, 2) / 0x1_0000 == 0x100 * classId + subclassId
  {
  }

  /** The two bytes of the upper half. */
  lemma TwoBytes(data: Word32)
    ensures data / 0x1_0000 == 0x100 * (data / 0x100_0000) + data / 0x1_0000 % 0x100
    ensures data / 0x100_0000 < 0x100
  {
  }

  lemma WordParts(data: Word32)
    ensures data / 0x1_0000 / 0x100 == data / 0x100_0000 < 0x100
  {
  }

  class ConfigPorts {
    const config: Config
    var latch: Word32

    constructor (config: Config)
      ensures this.config == config
    {
      this.config := config;
      latch := 0;
    }

    method OutPort(value: Word32)
      modifies this`latch
      ensures latch == value
    {
      latch := value;
    }

    method InPort() returns (data: Word32)
      ensures data == PortData(config, latch)
    {
      data := PortData(config, latch);
    }

    /** `pci_read_word`: the half of the register that the offset selects. */
    method ReadWord(bus: Byte, slot: Byte, func: Byte, offset: Byte) returns (w: nat)
      modifies this`latch
      ensures w < 0x1_0000
      ensures var (b, s, f) := Reached(bus, slot, func);
              var data := config(b, s, f, offset / 4);
              w == if offset / 2 % 2 == 1 then data / 0x1_0000 else data % 0x1_0000
      ensures slot < 32 && func < 8 ==>
                var data := config(bus, slot, func, offset / 4);
                w == if offset / 2 % 2 == 1 then data / 0x1_0000 else data % 0x1_0000
    {
      hide Address, Or, And, Shr, BusField, SlotField, FuncField, RegisterField, Reached;
      AddressDecodes(bus, slot, func, offset);
      ReachesItself(bus, slot, func);
      AddressFits(bus, slot, func, offset);
      OffsetMask(offset);
      OutPort(Address(bus, slot, func, offset));
      var data := InPort();
      HalfWord(data, offset);
      w := And(Shr(data, And(offset, 2) * 8), 0xFFFF);
    }

    /** `pci_get_device_class` and `pci_get_device_subclass`: the halves of the word at 0xA. */
    method DeviceClass(bus: Byte, slot: Byte, func: Byte) returns (classId: Byte)
      modifies this`latch
      ensures var (b, s, f) := Reached(bus, slot, func);
              classId == config(b, s, f, 2) / 0x100_0000
    {
      hide Reached;
      var w := ReadWord(bus, slot, func, 0xA);
      ghost var (b, s, f) := Reached(bus, slot, func);
      WordParts(config(b, s, f, 2));
      classId := w / 0x100;
    }

    method DeviceSubclass(bus: Byte, slot: Byte, func: Byte) returns (subclassId: Byte)
      modifies this`latch
      ensures var (b, s, f) := Reached(bus, slot, func);
              subclassId == config(b, s, f, 2) / 0x1_0000 % 0x100
    {
      hide Reached;
      var w := ReadWord(bus, slot, func, 0xA);
      ghost var (b, s, f) := Reached(bus, slot, func);
      WordParts(config(b, s, f, 2));
      subclassId := w % 0x100;
    }

    /** `locate_pci_device`: the first function in the order bus, slot, function with this class
        and subclass in bits 16 to 31 of register 2; not valid exactly when there is none. */
    method Locate(classId: Byte, subclassId: Byte) returns (dev: PciDevice)
      modifies this`latch
      ensures dev.valid ==> dev.slot < 32 && dev.func < 8
      ensures dev.valid ==> config(dev.bus, dev.slot, dev.func, 2) / 0x1_0000 == 0x100 * classId + subclassId
      ensures forall b: Byte, s: Byte, f: Byte ::
                s < 32 && f < 8 && config(b, s, f, 2) / 0x1_0000 == 0x100 * classId + subclassId ==>
                  dev.valid && (dev.bus < b || (dev.bus == b && (dev.slot < s || (dev.slot == s && dev.func <= f))))
    {
      hide Reached, Matches;
      MatchesMeans(config, classId, subclassId);
      var bus: nat := 0;
      while bus < 256
        invariant bus <= 256
        invariant forall b: Byte, s: Byte, f: Byte :: s < 32 && f < 8 && b < bus ==>
                    !Matches(config, classId, subclassId, b, s, f)
      {
        var slot: Byte := 0;
        while slot < 32
          invariant slot <= 32
          invariant forall b: Byte, s: Byte, f: Byte :: s < 32 && f < 8 && (b < bus || (b == bus && s < slot)) ==>
                      !Matches(config, classId, subclassId, b, s, f)
        {
          var func: Byte := 0;
          while func < 8
            invariant func <= 8
            invariant forall b: Byte, s: Byte, f: Byte ::
                        s < 32 && f < 8 &&
                        (b < bus || (b == bus && s < slot) || (b == bus && s == slot && f < func)) ==>
                        !Matches(config, classId, subclassId, b, s, f)
          {
            ReachesItself(bus, slot, func);
            var c := DeviceClass(bus, slot, func);
            if c == classId {
              var sub := DeviceSubclass(bus, slot, func);
              if sub == subclassId {
                TwoBytes(config(bus, slot, func, 2));
                return PciDevice(bus, slot, func, true);
              }
            }
            TwoBytes(config(bus, slot, func, 2));
            func := func + 1;
          }
          slot := slot + 1;
        }
        bus := bus + 1;
      }
      return PciDevice(0, 0, 0, false);
    }
  }
}
