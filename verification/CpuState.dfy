/** The architectural state of one core: PSR, registers and sequencing state (cpu.hpp). */
module CpuState {
  import opened Words
  import opened DivMod

  type RegNo = x: int | 0 <= x < 16
  type Level = x: int | 0 <= x < 16
  type Imm13 = x: int | 0 <= x < 0x2000
  type Upper = x: int | 0 <= x < 0x10_0000

  /** PSR as a bit-field record.  `bit5` and `upper` (bits 12..31) have no meaning
      to the core but `ld.w %psr` and `reti` carry them, so they are kept. */
  datatype Psr = Psr(n: bool, z: bool, v: bool, c: bool, ie: bool, bit5: bool,
                     ds: bool, mo: bool, il: Level, upper: Upper)
  {
    function ToRaw(): uint32 {
      Nibble(n, z, v, c) + 16 * (Nibble(ie, bit5, ds, mo) + 16 * (il + 16 * upper))
    }

    static function FromRaw(raw: uint32): Psr {
      var (r1, r2) := (raw / 16, raw / 16 / 16);
      var (low, mid) := (raw % 16, r1 % 16);
      Psr(Bit0(low), Bit1(low), Bit2(low), Bit3(low), Bit0(mid), Bit1(mid), Bit2(mid), Bit3(mid), r2 % 16, r2 / 16)
    }

    function SetIl(level: nat): Psr { this.(il := level % 16) }

    function SetNZ(result: uint32): Psr {
      this.(n := Negative(result), z := result == 0)
    }
  }

  /** Four flags packed into four bits, lowest first. */
  function Nibble(b0: bool, b1: bool, b2: bool, b3: bool): Level {
    (if b0 then 1 else 0) + (if b1 then 2 else 0) + (if b2 then 4 else 0) + (if b3 then 8 else 0)
  }

  predicate Bit0(x: Level) { x % 2 == 1 }
  predicate Bit1(x: Level) { x / 2 % 2 == 1 }
  predicate Bit2(x: Level) { x / 4 % 2 == 1 }
  predicate Bit3(x: Level) { 8 <= x }

  lemma NibbleRoundTrip(b0: bool, b1: bool, b2: bool, b3: bool, x: Level)
    ensures
      var y := Nibble(b0, b1, b2, b3);
      Bit0(y) == b0 && Bit1(y) == b1 && Bit2(y) == b2 && Bit3(y) == b3
    ensures Nibble(Bit0(x), Bit1(x), Bit2(x), Bit3(x)) == x
  {
  }

  lemma FromDigits(low: Level, mid: Level, il: Level, upper: Upper)
    ensures Psr.FromRaw(low + 16 * (mid + 16 * (il + 16 * upper)))
         == Psr(Bit0(low), Bit1(low), Bit2(low), Bit3(low), Bit0(mid), Bit1(mid), Bit2(mid), Bit3(mid), il, upper)
  {
    var r2 := il + 16 * upper;
    var r1 := mid + 16 * r2;
    assert (low + 16 * r1) / 16 == r1 && r1 / 16 == r2 && r2 / 16 == upper;
  }

  /** Storing the PSR as a word and loading it back loses nothing. */
  lemma FlagsRoundTrip(p: Psr)
    ensures Psr.FromRaw(p.ToRaw()) == p
  {
    NibbleRoundTrip(p.n, p.z, p.v, p.c, 0);
    NibbleRoundTrip(p.ie, p.bit5, p.ds, p.mo, 0);
    FromDigits(Nibble(p.n, p.z, p.v, p.c), Nibble(p.ie, p.bit5, p.ds, p.mo), p.il, p.upper);
  }

  lemma ToDigits(p: Psr, low: Level, mid: Level)
    requires low == Nibble(p.n, p.z, p.v, p.c) && mid == Nibble(p.ie, p.bit5, p.ds, p.mo)
    ensures p.ToRaw() == low + 16 * (mid + 16 * (p.il + 16 * p.upper))
  {
  }

  /** Every word is the image of exactly the PSR it decodes to. */
  lemma RawRoundTrip(raw: uint32)
    ensures Psr.FromRaw(raw).ToRaw() == raw
  {
    var p := Psr.FromRaw(raw);
    var low, mid := raw % 16, raw / 16 % 16;
    NibbleRoundTrip(false, false, false, false, low);
    NibbleRoundTrip(false, false, false, false, mid);
    ToDigits(p, low, mid);
  }

  /** Where the fields lie in the word: N, Z, V and C in bits 0 to 3, IE in bit 4, DS and MO in
      bits 6 and 7, IL in bits 8 to 11. */
  lemma FieldsOfWord(p: Psr)
    ensures
      var w := p.ToRaw();
      && (w % 2 == 1 <==> p.n) && (w / 2 % 2 == 1 <==> p.z) && (w / 4 % 2 == 1 <==> p.v) && (w / 8 % 2 == 1 <==> p.c)
      && (w / 16 % 2 == 1 <==> p.ie) && (w / 64 % 2 == 1 <==> p.ds) && (w / 128 % 2 == 1 <==> p.mo)
      && w / 256 % 16 == p.il
  {
    var low, mid := Nibble(p.n, p.z, p.v, p.c), Nibble(p.ie, p.bit5, p.ds, p.mo);
    NibbleRoundTrip(p.n, p.z, p.v, p.c, 0);
    NibbleRoundTrip(p.ie, p.bit5, p.ds, p.mo, 0);
    ToDigits(p, low, mid);
    hide Nibble, Psr.ToRaw;
    DigitsOfWord(low, mid, p.il, p.upper);
  }

  lemma DigitsOfWord(low: Level, mid: Level, il: Level, upper: Upper)
    ensures
      var w := low + 16 * (mid + 16 * (il + 16 * upper));
      && w % 2 == low % 2 && w / 2 % 2 == low / 2 % 2 && w / 4 % 2 == low / 4 % 2 && w / 8 % 2 == low / 8
      && w / 16 % 2 == mid % 2 && w / 64 % 2 == mid / 4 % 2 && w / 128 % 2 == mid / 8 && w / 256 % 16 == il
  {
    var r2 := il + 16 * upper;
    var r1 := mid + 16 * r2;
    var w := low + 16 * r1;
    LowDigit(w, low, r1);
    LowDigit(r1, mid, r2);
    LowDigit(r2, il, upper);
    DivisionUnique(w, 64, r1 / 4, low + 16 * (r1 % 4));
    DivisionUnique(w, 128, r1 / 8, low + 16 * (r1 % 8));
    DivisionUnique(w, 256, r2, low + 16 * mid);
  }

  /** The lowest four bits of a word. */
  lemma LowDigit(w: nat, digit: Level, rest: nat)
    requires w == digit + 16 * rest
    ensures w / 16 == rest && w % 16 == digit && w % 2 == digit % 2
    ensures w / 2 % 2 == digit / 2 % 2 && w / 4 % 2 == digit / 4 % 2 && w / 8 % 2 == digit / 8
  {
    DivisionUnique(w, 16, rest, digit);
    DigitBits(digit);
    BitOfDigit(w, 1, digit, digit % 2, digit / 2 + 8 * rest, 0);
    BitOfDigit(w, 2, digit / 2, digit / 2 % 2, digit / 4 + 4 * rest, digit % 2);
    BitOfDigit(w, 4, digit / 4, digit / 4 % 2, digit / 8 + 2 * rest, digit % 4);
    BitOfDigit(w, 8, digit / 8, digit / 8, rest, digit % 8);
  }

  lemma DigitBits(x: Level)
    ensures x == x % 2 + 2 * (x / 2) && x / 2 == x / 2 % 2 + 2 * (x / 4) && x / 4 == x / 4 % 2 + 2 * (x / 8)
    ensures x == x % 4 + 4 * (x / 4) && x == x % 8 + 8 * (x / 8) && x / 8 < 2
  {
  }

  /** The bit of weight `unit`, where w is low + unit * (bit + 2 * high). */
  lemma BitOfDigit(w: nat, unit: nat, top: nat, bit: nat, high: nat, low: nat)
    requires low < unit && bit < 2 && w == low + unit * (bit + 2 * high) && top % 2 == bit
    ensures w / unit % 2 == bit && w / unit == bit + 2 * high
  {
    DivisionUnique(w, unit, bit + 2 * high, low);
    DivisionUnique(bit + 2 * high, 2, high, bit);
  }

  datatype HaltMode = Running | Hlt | Slp

  /** A trap number with the level it was asserted at. */
  datatype Trap = Trap(no: nat, level: nat)
  {
    predicate Maskable() { 16 <= no }
  }

  /** Everything in the C++ CpuState except the deferred-trap slot, which no instruction
      handler reads.  `pendingExt` holds the live entries of pending_ext[], oldest first,
      so its length is pending_ext_count. */
  datatype Core = Core(r: seq<uint32>, pc: uint32, sp: uint32, alr: uint32, ahr: uint32, psr: Psr,
                       pendingExt: seq<Imm13>, inHalt: bool, haltMode: HaltMode, fault: bool,
                       inDelaySlot: bool, delayTarget: uint32, delayCaller: uint8, ttbr: uint32)
  {
    predicate Valid() {
      |r| == 16 && |pendingExt| <= 2
    }

    /** A boundary at which do_trap may enter the handler at once. */
    predicate Open() {
      pendingExt == [] && !inDelaySlot
    }
  }

  function FlushExt(c: Core): Core {
    c.(pendingExt := [])
  }
}
