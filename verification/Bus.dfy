/** The bus control unit: address decoding, little-endian memory, wait-state cycles and
    misalignment faults (bus.hpp, bus.cpp).  Flash is the default read-only FlatFlashRom;
    the registered I/O handlers are one arbitrary function of everything accessed so far. */
module BusModel {
  import opened Words

  const IRAM_SIZE := 0x2000
  const SRAM_BASE := 0x10_0000
  const SRAM_WINDOW := 0x10_0000
  const FLASH_BASE := 0xC0_0000
  const AREA1_BASE := 0x03_0000
  const IO_END := 0x08_0000
  const ADDRESS_SPACE := 0x1000_0000

  datatype Region = IRAM | SRAM | FLASH | IO | NONE

  datatype IoAccess = IoRead(addr: uint32) | IoWrite(addr: uint32, val: uint16)

  /** What a read handler returns, given every earlier access and the address. */
  type IoHandlers = (seq<IoAccess>, uint32) -> uint16

  function Word(lo: uint16, hi: uint16): uint32 {
    var l: int, h: int := lo, hi;
    l + TWO16 * h
  }

  function Load16(bytes: seq<uint8>, off: nat): (v: uint16)
    requires off + 1 < |bytes|
  {
    var b0: int, b1: int := bytes[off], bytes[off + 1];
    b0 + 0x100 * b1
  }

  function Load32(bytes: seq<uint8>, off: nat): (v: uint32)
    requires off + 3 < |bytes|
  {
    Word(Load16(bytes, off), Load16(bytes, off + 2))
  }

  function Store32(bytes: seq<uint8>, off: nat, v: uint32): (stored: seq<uint8>)
    requires off + 3 < |bytes|
    ensures |stored| == |bytes|
    ensures forall k | 0 <= k < |bytes| && !(off <= k < off + 4) :: stored[k] == bytes[k]
  {
    bytes[off := v % 0x100][off + 1 := v / 0x100 % 0x100][off + 2 := v / 0x1_0000 % 0x100][off + 3 := v / 0x100_0000]
  }

  /** A stored word is read back unchanged. */
  lemma LoadOfStore32(bytes: seq<uint8>, off: nat, v: uint32)
    requires off + 3 < |bytes|
    ensures Load32(Store32(bytes, off, v), off) == v
  {
    assert v == v % 0x100 + 0x100 * (v / 0x100);
    assert v / 0x100 == v / 0x100 % 0x100 + 0x100 * (v / 0x1_0000);
    assert v / 0x1_0000 == v / 0x1_0000 % 0x100 + 0x100 * (v / 0x100_0000);
  }

  /** Four bytes as a number, the first weighing least. */
  function Joined(b0: int, b1: int, b2: int, b3: int): int {
    b0 + 0x100 * b1 + 0x1_0000 * b2 + 0x100_0000 * b3
  }

  /** Memory is little-endian: the byte at the lowest address weighs least. */
  lemma LittleEndian(bytes: seq<uint8>, off: nat, v: uint32)
    requires off + 3 < |bytes|
    ensures Load16(bytes, off) == Joined(bytes[off], bytes[off + 1], 0, 0)
    ensures Load32(bytes, off) == Joined(bytes[off], bytes[off + 1], bytes[off + 2], bytes[off + 3])
    ensures
      var s := Store32(bytes, off, v);
      v == Joined(s[off], s[off + 1], s[off + 2], s[off + 3])
  {
    LoadOfStore32(bytes, off, v);
  }

  /** Reads the halfword at an even offset of a memory whose size is a multiple of four. */
  function LoadEven(bytes: seq<uint8>, off: nat): uint16
    requires |bytes| % 4 == 0 && off % 2 == 0 && off < |bytes|
  {
    Load16(bytes, off)
  }

  /** Reads the word at an aligned offset of such a memory. */
  function LoadAligned(bytes: seq<uint8>, off: nat): uint32
    requires |bytes| % 4 == 0 && off % 4 == 0 && off < |bytes|
  {
    Load32(bytes, off)
  }

  /** Stores a word at an aligned offset of a memory whose size is a multiple of four. */
  function StoreAligned(bytes: seq<uint8>, off: nat, v: uint32): (stored: seq<uint8>)
    requires |bytes| % 4 == 0 && off % 4 == 0 && off < |bytes|
    ensures |stored| == |bytes|
  {
    Store32(bytes, off, v)
  }

  function LowHalf(v: uint32): uint16 { v % TWO16 }

  function HighHalf(v: uint32): uint16 { v / TWO16 }

  /** The bus drops the top four address bits, then the bits below the access size. */
  function Even(addr: uint32): (a: uint32)
    ensures a < ADDRESS_SPACE && a % 2 == 0
  {
    addr % ADDRESS_SPACE / 2 * 2
  }

  function WordAligned(addr: uint32): (a: uint32)
    ensures a < ADDRESS_SPACE && a % 4 == 0
  {
    addr % ADDRESS_SPACE / 4 * 4
  }

  /** Internal RAM is mirrored once, above itself. */
  function IramOffset(a: nat): (off: nat)
    requires a < 0x3000
    ensures off < IRAM_SIZE && (a % 4 == 0 ==> off % 4 == 0) && (a % 2 == 0 ==> off % 2 == 0)
  {
    if a < IRAM_SIZE then a else a - IRAM_SIZE
  }

  datatype Memory = Memory(iram: seq<uint8>, sram: seq<uint8>, flash: seq<uint8>,
                           sramWait: nat, flashWait: nat, clockDiv: nat,
                           cycles: uint32, faultPending: bool, handlers: IoHandlers, ioLog: seq<IoAccess>)
  {
    predicate Valid() {
      && |iram| == IRAM_SIZE
      && |sram| % 4 == 0 && |sram| <= SRAM_WINDOW
      && |flash| % 4 == 0 && FLASH_BASE + |flash| <= ADDRESS_SPACE
      && 1 <= clockDiv
    }

    function Classify(a: uint32): Region {
      if SRAM_BASE <= a < SRAM_BASE + SRAM_WINDOW then SRAM
      else if FLASH_BASE <= a < FLASH_BASE + |flash| then FLASH
      else if AREA1_BASE <= a < IO_END then IO
      else if a < 0x3000 then IRAM
      else NONE
    }

    function ReadCycles(wait: nat): nat { (wait + 1) * clockDiv }

    function WriteCycles(wait: nat): nat { (wait + 2) * clockDiv }

    function Charge(n: nat): (m: Memory)
      ensures m == this.(cycles := m.cycles)
    {
      this.(cycles := Wrap32(cycles + n))
    }

    /** Raises the pending fault when the access is misaligned. */
    function CheckAlign(misaligned: bool): Memory {
      if misaligned then this.(faultPending := true) else this
    }

    function Read16(addr: uint32): (r: (uint16, Memory))
      requires Valid()
      ensures r.1.Valid()
    {
      hide Even, Charge;
      var a := Even(addr);
      var m := CheckAlign(addr % 2 == 1);
      match Classify(a)
      case SRAM =>
        (if a - SRAM_BASE < |sram| then LoadEven(sram, a - SRAM_BASE) else 0xFFFF, m.Charge(ReadCycles(sramWait)))
      case FLASH => (LoadEven(flash, a - FLASH_BASE), m.Charge(ReadCycles(flashWait)))
      case IRAM => (LoadEven(iram, IramOffset(a)), m)
      case IO => (handlers(ioLog, a), m.(ioLog := ioLog + [IoRead(a)]))
      case NONE => (0xFFFF, m)
    }

    function Read32(addr: uint32): (r: (uint32, Memory))
      requires Valid()
      ensures r.1.Valid()
    {
      hide WordAligned, Charge;
      var a := WordAligned(addr);
      var m := CheckAlign(addr % 4 != 0);
      match Classify(a)
      case SRAM =>
        (if a - SRAM_BASE < |sram| then LoadAligned(sram, a - SRAM_BASE) else 0xFFFF_FFFF,
         m.Charge(2 * ReadCycles(sramWait)))
      case FLASH => (LoadAligned(flash, a - FLASH_BASE), m.Charge(2 * ReadCycles(flashWait)))
      case IRAM => (LoadAligned(iram, IramOffset(a)), m)
      case IO =>
        var log := ioLog + [IoRead(a)];
        (Word(handlers(ioLog, a), handlers(log, a + 2)), m.(ioLog := log + [IoRead(a + 2)]))
      case NONE => (0xFFFF_FFFF, m)
    }

    function Write32(addr: uint32, val: uint32): (m': Memory)
      requires Valid()
      ensures m'.Valid()
    {
      hide WordAligned, Charge;
      var a := WordAligned(addr);
      var m := CheckAlign(addr % 4 != 0);
      match Classify(a)
      case SRAM =>
        var c := m.Charge(2 * WriteCycles(sramWait));
        if a - SRAM_BASE < |sram| then c.(sram := StoreAligned(sram, a - SRAM_BASE, val)) else c
      case FLASH => m.Charge(2 * WriteCycles(flashWait))
      case IRAM => m.(iram := StoreAligned(iram, IramOffset(a), val))
      case IO => m.(ioLog := ioLog + [IoWrite(a, LowHalf(val)), IoWrite(a + 2, HighHalf(val))])
      case NONE => m
    }

    /** Instruction fetch: no I/O, no misalignment fault, at least one cycle outside SRAM and flash. */
    function Fetch16(addr: uint32): (r: (uint16, Memory))
      requires Valid()
      ensures r.1.Valid()
    {
      var a := Even(addr);
      if FLASH_BASE <= a < FLASH_BASE + |flash| then (LoadEven(flash, a - FLASH_BASE), Charge(ReadCycles(flashWait)))
      else if a < 0x3000 then (LoadEven(iram, IramOffset(a)), Charge(1))
      else if SRAM_BASE <= a < SRAM_BASE + SRAM_WINDOW then
        (if a - SRAM_BASE < |sram| then LoadEven(sram, a - SRAM_BASE) else 0xFFFF, Charge(ReadCycles(sramWait)))
      else (0xFFFF, Charge(1))
    }

    function Read8(addr: uint32): (r: (uint8, Memory))
      requires Valid()
      ensures r.1.Valid()
    {
      var a := addr % ADDRESS_SPACE;
      match Classify(a)
      case SRAM =>
        (if a - SRAM_BASE < |sram| then sram[a - SRAM_BASE] else 0xFF, Charge(ReadCycles(sramWait)))
      case FLASH => (flash[a - FLASH_BASE], Charge(ReadCycles(flashWait)))
      case IRAM => (iram[IramOffset(a)], this)
      case IO =>
        var hw := handlers(ioLog, a - a % 2);
        (if a % 2 == 1 then hw / 0x100 else hw % 0x100, this.(ioLog := ioLog + [IoRead(a - a % 2)]))
      case NONE => (0xFF, this)
    }

    /** The SRAM offset a word access at `addr` uses. */
    function SramOffset(addr: uint32): int { WordAligned(addr) - SRAM_BASE }

    /** `addr` is a word-aligned address of installed SRAM. */
    predicate SramWord(addr: uint32) {
      addr % 4 == 0 && 0 <= SramOffset(addr) < |sram|
    }

    /** Equality of everything but the cycle counter. */
    ghost predicate SameBut(m: Memory, otherSram: seq<uint8>) {
      m == this.(sram := otherSram, cycles := m.cycles)
    }
  }

  /** The word below an aligned address is the word below on the bus. */
  lemma WordBelow(a: uint32)
    requires a % 4 == 0 && 4 <= WordAligned(a)
    ensures Wrap32(a - 4) == a - 4 && WordAligned(a - 4) == WordAligned(a) - 4
  {
    var q, r := a / ADDRESS_SPACE, a % ADDRESS_SPACE;
    assert r % 4 == 0 && WordAligned(a) == r;
    assert a - 4 == q * ADDRESS_SPACE + (r - 4);
    assert (a - 4) % ADDRESS_SPACE == r - 4;
  }

  lemma WordAbove(a: uint32)
    requires a % 4 == 0 && a + 4 < TWO32 && WordAligned(a) + 4 < ADDRESS_SPACE
    ensures WordAligned(a + 4) == WordAligned(a) + 4 && (a + 4) % 4 == 0
  {
    var q, r := a / ADDRESS_SPACE, a % ADDRESS_SPACE;
    assert r % 4 == 0 && WordAligned(a) == r;
    assert a + 4 == q * ADDRESS_SPACE + (r + 4);
    assert (a + 4) % ADDRESS_SPACE == r + 4;
  }

  /** Reading a word of installed SRAM returns what is stored and only costs cycles. */
  lemma SramRead(m: Memory, addr: uint32)
    requires m.Valid() && m.SramWord(addr)
    ensures m.SramOffset(addr) + 3 < |m.sram|
    ensures m.Read32(addr).0 == Load32(m.sram, m.SramOffset(addr)) && m.SameBut(m.Read32(addr).1, m.sram)
  {
    hide Memory.Charge, Memory.ReadCycles, Load32;
  }

  lemma SramWrite(m: Memory, addr: uint32, v: uint32)
    requires m.Valid() && m.SramWord(addr)
    ensures m.SramOffset(addr) + 3 < |m.sram|
    ensures m.SameBut(m.Write32(addr, v), Store32(m.sram, m.SramOffset(addr), v))
  {
    hide Memory.Charge, Memory.WriteCycles, Store32;
  }

  // ---- what the accesses deliver ----

  /** The bytes of installed memory by bus address; None for I/O and open bus. */
  function ByteAt(m: Memory, a: uint32): Option<uint8>
    requires m.Valid()
  {
    if a < 0x2000 then Some(m.iram[a])
    else if a < 0x3000 then Some(m.iram[a - 0x2000])
    else if 0x10_0000 <= a < 0x10_0000 + |m.sram| then Some(m.sram[a - 0x10_0000])
    else if 0xC0_0000 <= a < 0xC0_0000 + |m.flash| then Some(m.flash[a - 0xC0_0000])
    else None
  }

  predicate OpenBus(m: Memory, a: uint32)
    requires m.Valid()
  {
    ByteAt(m, a).None? && !(0x3_0000 <= a < 0x8_0000)
  }

  /** A byte read gives the stored byte, 0xFF on the open bus, and for I/O one half of what the
      register at the even address gives.  Only I/O leaves a trace besides cycles. */
  lemma ByteReads(m: Memory, addr: uint32)
    requires m.Valid()
    ensures
      var a := addr % 0x1000_0000;
      && (ByteAt(m, a).Some? ==> m.Read8(addr).0 == ByteAt(m, a).value)
      && (OpenBus(m, a) ==> m.Read8(addr).0 == 0xFF)
      && (ByteAt(m, a).None? && !OpenBus(m, a) ==>
            var h := m.handlers(m.ioLog, a - a % 2); m.Read8(addr).0 == if a % 2 == 0 then h % 0x100 else h / 0x100)
      && (ByteAt(m, a).Some? || OpenBus(m, a) ==> m.SameBut(m.Read8(addr).1, m.sram))
  {
    hide Memory.Charge, Memory.ReadCycles;
  }

  /** A halfword read joins the two byte reads at its even address, low byte first, and so does a
      fetch, which sees nothing of I/O. */
  lemma HalfwordReads(m: Memory, addr: uint32)
    requires m.Valid() && addr % 2 == 0
    ensures
      var a := addr % 0x1000_0000;
      && (ByteAt(m, a).Some? ==>
            && ByteAt(m, a + 1).Some?
            && m.Read16(addr).0 == Joined(ByteAt(m, a).value, ByteAt(m, a + 1).value, 0, 0)
            && m.Fetch16(addr).0 == m.Read16(addr).0)
      && (OpenBus(m, a) ==> m.Read16(addr).0 == 0xFFFF)
      && (ByteAt(m, a).None? ==> m.Fetch16(addr).0 == 0xFFFF)
  {
    EvenAddress(addr);
    hide Memory.Charge, Memory.ReadCycles, Even;
  }

  lemma EvenAddress(addr: uint32)
    requires addr % 2 == 0
    ensures Even(addr) == addr % 0x1000_0000 && addr % 0x1000_0000 % 2 == 0
  {
    var q, r := addr / 0x1000_0000, addr % 0x1000_0000;
    assert addr == q * 0x1000_0000 + r;
  }

  /** An aligned word read of installed memory joins four bytes. */
  lemma WordReads(m: Memory, addr: uint32)
    requires m.Valid() && addr % 4 == 0
    ensures
      var a := addr % 0x1000_0000;
      && a + 3 < 0x1000_0000
      && (ByteAt(m, a).Some? ==>
            && ByteAt(m, a + 1).Some? && ByteAt(m, a + 2).Some? && ByteAt(m, a + 3).Some?
            && m.Read32(addr).0
               == Joined(ByteAt(m, a).value, ByteAt(m, a + 1).value, ByteAt(m, a + 2).value, ByteAt(m, a + 3).value))
      && (OpenBus(m, a) ==> m.Read32(addr).0 == 0xFFFF_FFFF)
  {
    AlignedAddress(addr);
    hide Memory.Charge, Memory.ReadCycles, WordAligned;
  }

  lemma AlignedAddress(addr: uint32)
    requires addr % 4 == 0
    ensures WordAligned(addr) == addr % 0x1000_0000 && addr % 0x1000_0000 % 4 == 0
  {
    var q, r := addr / 0x1000_0000, addr % 0x1000_0000;
    assert addr == q * 0x1000_0000 + r;
  }

  /** A word write changes the four bytes it addresses and no other byte of installed memory; flash
      and the open bus ignore it, and I/O sees its halves, the lower first. */
  lemma WordWrites(m: Memory, addr: uint32, v: uint32, b: uint32)
    requires m.Valid() && addr % 4 == 0 && (b < 0x2000 || 0x3000 <= b)
    ensures
      var a, m' := addr % 0x1000_0000, m.Write32(addr, v);
      var t := if 0x2000 <= a < 0x3000 then a - 0x2000 else a;
      var writable := a < 0x3000 || 0x10_0000 <= a < 0x10_0000 + |m.sram|;
      && ByteAt(m', b) == (if writable && t <= b < t + 4 then Some(ByteOf(v, b - t)) else ByteAt(m, b))
      && m'.ioLog == (if 0x3_0000 <= a < 0x8_0000 then m.ioLog + [IoWrite(a, v % 0x1_0000), IoWrite(a + 2, v / 0x1_0000)]
                      else m.ioLog)
      && m'.faultPending == m.faultPending
  {
    AlignedAddress(addr);
    var a := addr % 0x1000_0000;
    if a < 0x3000 {
      StoredBytes(m.iram, IramOffset(a), v, b);
    } else if 0x10_0000 <= a < 0x10_0000 + |m.sram| && 0x10_0000 <= b {
      StoredBytes(m.sram, a - 0x10_0000, v, b - 0x10_0000);
    }
    hide Memory.Charge, Memory.WriteCycles, WordAligned, Store32, ByteOf, Memory.Valid;
  }

  lemma StoredBytes(bytes: seq<uint8>, off: nat, v: uint32, k: nat)
    requires off + 3 < |bytes|
    ensures k < |bytes| ==> Store32(bytes, off, v)[k] == if off <= k < off + 4 then ByteOf(v, k - off) else bytes[k]
  {
  }

  /** Byte i of a word, byte 0 weighing least. */
  function ByteOf(v: uint32, i: nat): uint8
    requires i < 4
  {
    if i == 0 then v % 0x100 else if i == 1 then v / 0x100 % 0x100 else if i == 2 then v / 0x1_0000 % 0x100 else v / 0x100_0000
  }

  lemma BytesJoin(v: uint32)
    ensures Joined(ByteOf(v, 0), ByteOf(v, 1), ByteOf(v, 2), ByteOf(v, 3)) == v
  {
    assert v / 0x100 == v / 0x100 % 0x100 + 0x100 * (v / 0x1_0000);
    assert v / 0x1_0000 == v / 0x1_0000 % 0x100 + 0x100 * (v / 0x100_0000);
  }

  /** A misaligned halfword or word access leaves a fault pending, an aligned one none of its own. */
  lemma MisalignedFaults(m: Memory, addr: uint32, v: uint32)
    requires m.Valid()
    ensures m.Read16(addr).1.faultPending == (m.faultPending || addr % 2 != 0)
    ensures m.Read32(addr).1.faultPending == (m.faultPending || addr % 4 != 0)
    ensures m.Write32(addr, v).faultPending == (m.faultPending || addr % 4 != 0)
    ensures m.Read8(addr).1.faultPending == m.faultPending && m.Fetch16(addr).1.faultPending == m.faultPending
  {
    hide Memory.Charge, Memory.ReadCycles, Memory.WriteCycles, Even, WordAligned;
  }

  /** Byte and halfword reads and fetches take wait + 1 bus clocks in SRAM and flash; inside, on the
      open bus and in I/O reads are free and a fetch takes one cycle. */
  lemma NarrowCosts(m: Memory, addr: uint32)
    requires m.Valid()
    ensures
      var a := addr % 0x1000_0000;
      var wait := if 0x10_0000 <= a < 0x20_0000 then (m.sramWait + 1) * m.clockDiv
                  else if 0xC0_0000 <= a < 0xC0_0000 + |m.flash| then (m.flashWait + 1) * m.clockDiv
                  else 0;
      && m.Read8(addr).1.cycles == Wrap32(m.cycles + wait)
      && m.Read16(addr).1.cycles == Wrap32(m.cycles + wait)
      && m.Fetch16(addr).1.cycles == Wrap32(m.cycles + if wait > 0 then wait else 1)
  {
    SameRegion(m, addr);
    WaitPositive(m.sramWait, m.clockDiv);
    WaitPositive(m.flashWait, m.clockDiv);
    WrapWord(m.cycles);
    hide Wrap32, Even;
  }

  lemma SameRegion(m: Memory, addr: uint32)
    requires m.Valid()
    ensures
      var a, e := addr % 0x1000_0000, Even(addr);
      e <= a <= e + 1 && m.Classify(e) == m.Classify(a)
  {
    var a := addr % 0x1000_0000;
    EvenBelow(addr);
    hide Even;
    HalfwordInside(a / 2, |m.flash| / 4);
  }

  lemma EvenBelow(addr: uint32)
    ensures
      var a := addr % 0x1000_0000;
      Even(addr) == 2 * (a / 2) && (a == 2 * (a / 2) || a == 2 * (a / 2) + 1)
  {
  }

  /** No region boundary separates the two bytes of a halfword. */
  lemma HalfwordInside(k: nat, q: nat)
    ensures 0x3_0000 <= 2 * k + 1 ==> 0x3_0000 <= 2 * k
    ensures 0x8_0000 <= 2 * k + 1 ==> 0x8_0000 <= 2 * k
    ensures 0x10_0000 <= 2 * k + 1 ==> 0x10_0000 <= 2 * k
    ensures 0x20_0000 <= 2 * k + 1 ==> 0x20_0000 <= 2 * k
    ensures 0xC0_0000 <= 2 * k + 1 ==> 0xC0_0000 <= 2 * k
    ensures 0xC0_0000 + 4 * q <= 2 * k + 1 ==> 0xC0_0000 + 4 * q <= 2 * k
    ensures 0x3000 <= 2 * k + 1 ==> 0x3000 <= 2 * k
  {
  }

  lemma WaitPositive(wait: nat, div: nat)
    requires div >= 1
    ensures (wait + 1) * div >= 1
  {
  }

  /** Word accesses to SRAM take two bus cycles of wait + 1 clocks to read and wait + 2 to write. */
  lemma WordCosts(m: Memory, addr: uint32, v: uint32)
    requires m.Valid() && m.SramWord(addr)
    ensures m.Read32(addr).1.cycles == Wrap32(m.cycles + 2 * ((m.sramWait + 1) * m.clockDiv))
    ensures m.Write32(addr, v).cycles == Wrap32(m.cycles + 2 * ((m.sramWait + 2) * m.clockDiv))
  {
    hide Wrap32, Load32, Store32;
  }

  /** The bus object: the accessors the core and the DMA controller call. */
  class Bus {
    var mem: Memory

    constructor (m: Memory)
      ensures mem == m
    {
      mem := m;
    }

    method CheckAlign(misaligned: bool)
      modifies this
      ensures mem == old(mem).CheckAlign(misaligned)
    {
      if misaligned {
        mem := mem.(faultPending := true);
      }
    }

    method Charge(n: nat)
      modifies this
      ensures mem == old(mem).Charge(n)
    {
      mem := mem.(cycles := Wrap32(mem.cycles as int + n));
    }

    /** A registered I/O handler is called. */
    method CallRead(addr: uint32) returns (v: uint16)
      modifies this
      ensures v == old(mem).handlers(old(mem).ioLog, addr)
      ensures mem == old(mem).(ioLog := old(mem).ioLog + [IoRead(addr)])
    {
      v := mem.handlers(mem.ioLog, addr);
      mem := mem.(ioLog := mem.ioLog + [IoRead(addr)]);
    }

    method Read8(addr: uint32) returns (v: uint8)
      requires mem.Valid()
      modifies this
      ensures (v, mem) == old(mem).Read8(addr)
    {
      hide Memory.Charge, Memory.ReadCycles;
      var a := addr % ADDRESS_SPACE;
      v := 0xFF;
      match mem.Classify(a) {
        case SRAM =>
          Charge(mem.ReadCycles(mem.sramWait));
          if a - SRAM_BASE < |mem.sram| {
            v := mem.sram[a - SRAM_BASE];
          }
        case FLASH =>
          Charge(mem.ReadCycles(mem.flashWait));
          v := mem.flash[a - FLASH_BASE];
        case IRAM =>
          v := mem.iram[IramOffset(a)];
        case IO =>
          var hw := CallRead(a - a % 2);
          v := if a % 2 == 1 then hw / 0x100 else hw % 0x100;
        case NONE =>
      }
    }

    method Read16(addr: uint32) returns (v: uint16)
      requires mem.Valid()
      modifies this
      ensures (v, mem) == old(mem).Read16(addr)
    {
      hide Memory.Charge, Load16, Load32, Store32, Even, WordAligned;
      var a := Even(addr);
      v := 0xFFFF;
      CheckAlign(addr % 2 == 1);
      match mem.Classify(a) {
        case SRAM =>
          Charge(mem.ReadCycles(mem.sramWait));
          if a - SRAM_BASE < |mem.sram| {
            v := LoadEven(mem.sram, a - SRAM_BASE);
          }
        case FLASH =>
          Charge(mem.ReadCycles(mem.flashWait));
          v := LoadEven(mem.flash, a - FLASH_BASE);
        case IRAM =>
          v := LoadEven(mem.iram, IramOffset(a));
        case IO =>
          v := CallRead(a);
        case NONE =>
      }
    }

    method Read32(addr: uint32) returns (v: uint32)
      requires mem.Valid()
      modifies this
      ensures (v, mem) == old(mem).Read32(addr)
    {
      hide Memory.Charge, Load16, Load32, Store32, Even, WordAligned;
      var a := WordAligned(addr);
      v := 0xFFFF_FFFF;
      CheckAlign(addr % 4 != 0);
      match mem.Classify(a) {
        case SRAM =>
          Charge(2 * mem.ReadCycles(mem.sramWait));
          if a - SRAM_BASE < |mem.sram| {
            v := LoadAligned(mem.sram, a - SRAM_BASE);
          }
        case FLASH =>
          Charge(2 * mem.ReadCycles(mem.flashWait));
          v := LoadAligned(mem.flash, a - FLASH_BASE);
        case IRAM =>
          v := LoadAligned(mem.iram, IramOffset(a));
        case IO =>
          var lo := CallRead(a);
          var hi := CallRead(a + 2);
          v := Word(lo, hi);
        case NONE =>
      }
    }

    method Write32(addr: uint32, val: uint32)
      requires mem.Valid()
      modifies this
      ensures mem == old(mem).Write32(addr, val)
    {
      hide Memory.Charge, Load16, Load32, Store32, Even, WordAligned;
      var a := WordAligned(addr);
      CheckAlign(addr % 4 != 0);
      match mem.Classify(a) {
        case SRAM =>
          Charge(2 * mem.WriteCycles(mem.sramWait));
          if a - SRAM_BASE < |mem.sram| {
            mem := mem.(sram := StoreAligned(mem.sram, a - SRAM_BASE, val));
          }
        case FLASH =>
          Charge(2 * mem.WriteCycles(mem.flashWait));
        case IRAM =>
          mem := mem.(iram := StoreAligned(mem.iram, IramOffset(a), val));
        case IO =>
          mem := mem.(ioLog := mem.ioLog + [IoWrite(a, LowHalf(val))]);
          mem := mem.(ioLog := mem.ioLog + [IoWrite(a + 2, HighHalf(val))]);
        case NONE =>
      }
    }

    method Fetch16(addr: uint32) returns (v: uint16)
      requires mem.Valid()
      modifies this
      ensures (v, mem) == old(mem).Fetch16(addr)
    {
      hide Memory.Charge, Load16, Load32, Store32, Even, WordAligned;
      var a := Even(addr);
      if FLASH_BASE <= a < FLASH_BASE + |mem.flash| {
        Charge(mem.ReadCycles(mem.flashWait));
        return LoadEven(mem.flash, a - FLASH_BASE);
      }
      if a < 0x3000 {
        Charge(1);
        return LoadEven(mem.iram, IramOffset(a));
      }
      if SRAM_BASE <= a < SRAM_BASE + SRAM_WINDOW {
        Charge(mem.ReadCycles(mem.sramWait));
        return if a - SRAM_BASE < |mem.sram| then LoadEven(mem.sram, a - SRAM_BASE) else 0xFFFF;
      }
      Charge(1);
      return 0xFFFF;
    }
  }
}
