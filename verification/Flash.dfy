/** The SST39VF NOR flash: its command state machine, erase and program effects, and dirty-sector
    tracking (flash_sst39vf.hpp, flash_sst39vf.cpp). */
module Flash {
  import opened Words
  import opened DivMod
  import BusModel

  const SECTOR_SIZE := 0x1000
  const BLOCK_SIZE := 0x1_0000
  const CMD_ADDR_1 := 0x5555
  const CMD_ADDR_2 := 0x2AAA

  datatype Command = Normal | Enter1 | Enter2 | Enter3 | Enter4 | Enter5 | SoftwareId | CfiQuery | WordProgram

  /** One halfword write on the bus, at a byte offset within the chip. */
  datatype Cycle = Cycle(offset: uint32, data: uint16)

  predicate PowerOfTwo(n: nat) {
    n == 1 || (n > 0 && n % 2 == 0 && PowerOfTwo(n / 2))
  }

  datatype Device = Device(mem: seq<uint8>, dirty: seq<bool>, state: Command)
  {
    /** Every P/ECE part is a power of two of at least one block. */
    predicate Valid() {
      PowerOfTwo(|mem|) && |mem| > 0 && |mem| % BLOCK_SIZE == 0 && |dirty| * SECTOR_SIZE == |mem|
    }

    /** The byte offset the chip decodes: masked to its size, low bit dropped. */
    function Decode(offset: uint32): nat
      requires Valid()
    {
      offset % |mem| / 2 * 2
    }

    /** Halfword address and command byte of a cycle. */
    predicate Sees(w: Cycle, addr: nat, cmd: uint8)
      requires Valid()
    {
      Decode(w.offset) / 2 == addr && w.data % 0x100 == cmd
    }

    function Commit(off: nat, data: uint16): Device
      requires off + 1 < |mem|
    {
      this.(mem := mem[off := data % 0x100][off + 1 := data / 0x100],
            dirty := Marked(dirty, off / SECTOR_SIZE, (off + 1) / SECTOR_SIZE), state := Normal)
    }

    function Erase(from: nat, span: nat): Device
      requires span > 0
    {
      this.(mem := Filled(mem, from, from + span),
            dirty := Marked(dirty, from / SECTOR_SIZE, (from + span - 1) / SECTOR_SIZE), state := Normal)
    }

    /** The range the sixth cycle of an erase sequence clears: start and length, length 0 for none. */
    function EraseRange(w: Cycle): (nat, nat)
      requires Valid()
    {
      var off := Decode(w.offset);
      match w.data % 0x100
      case 0x10 => if off / 2 == CMD_ADDR_1 then (0, |mem|) else (0, 0)
      case 0x30 => (off / SECTOR_SIZE * SECTOR_SIZE, SECTOR_SIZE)
      case 0x50 => (off / BLOCK_SIZE * BLOCK_SIZE, BLOCK_SIZE)
      case _ => (0, 0)
    }

    /** The next state of an unlock sequence that has no effect on memory. */
    function Advance(w: Cycle): Command
      requires Valid()
    {
      match state
      case Normal => if Sees(w, CMD_ADDR_1, 0xAA) then Enter1 else Normal
      case Enter1 => if Sees(w, CMD_ADDR_2, 0x55) then Enter2 else Normal
      case Enter2 =>
        if Sees(w, CMD_ADDR_1, 0x80) then Enter3
        else if Sees(w, CMD_ADDR_1, 0x90) then SoftwareId
        else if Sees(w, CMD_ADDR_1, 0x98) then CfiQuery
        else if Sees(w, CMD_ADDR_1, 0xA0) then WordProgram
        else Normal
      case Enter3 => if Sees(w, CMD_ADDR_1, 0xAA) then Enter4 else Normal
      case Enter4 => if Sees(w, CMD_ADDR_2, 0x55) then Enter5 else Normal
      case Enter5 => Normal
      case WordProgram => Normal
      case SoftwareId => SoftwareId
      case CfiQuery => CfiQuery
    }

    function Write(w: Cycle): (d: Device)
      requires Valid()
      ensures |d.mem| == |mem| && |d.dirty| == |dirty|
    {
      if state != WordProgram && w.data % 0x100 == 0xF0 then this.(state := Normal)
      else if state == WordProgram then
        DecodeInRange(this, w.offset);
        Commit(Decode(w.offset), w.data)
      else if state == Enter5 && EraseRange(w).1 > 0 then Erase(EraseRange(w).0, EraseRange(w).1)
      else this.(state := Advance(w))
    }
  }

  lemma DecodeIsEven(d: Device, offset: uint32)
    requires d.Valid()
    ensures d.Decode(offset) % 2 == 0 && d.Decode(offset) + 1 < |d.mem|
  {
    hide PowerOfTwo;
    BlocksAreSectors(|d.mem|);
    RoundedEven(offset % |d.mem|, |d.mem|);
  }

  lemma RoundedEven(r: nat, n: nat)
    requires r < n && n % 2 == 0
    ensures r / 2 * 2 % 2 == 0 && r / 2 * 2 + 1 < n
  {
  }

  lemma BlocksAreSectors(n: nat)
    requires n % BLOCK_SIZE == 0
    ensures n % SECTOR_SIZE == 0 && n % 2 == 0 && n / SECTOR_SIZE * SECTOR_SIZE == n
  {
    var k := n / BLOCK_SIZE;
    assert n == 16 * k * SECTOR_SIZE;
    DivisionUnique(n, SECTOR_SIZE, 16 * k, 0);
  }

  /** An offset inside the chip is decoded to its halfword's address, and offsets a multiple of the
      chip's size apart to the same one. */
  lemma DecodeMeans(d: Device, offset: uint32, k: nat)
    requires d.Valid() && offset < |d.mem| && offset + k * |d.mem| < TWO32
    ensures d.Decode(offset + k * |d.mem|) == d.Decode(offset) == offset - offset % 2
  {
    DivisionUnique(offset + k * |d.mem|, |d.mem|, k, offset);
    DivisionUnique(offset, |d.mem|, 0, offset);
  }

  lemma DecodeInRange(d: Device, offset: uint32)
    requires d.Valid()
    ensures d.Decode(offset) % 2 == 0 && d.Decode(offset) + 1 < |d.mem|
    ensures d.Decode(offset) / BLOCK_SIZE * BLOCK_SIZE + BLOCK_SIZE <= |d.mem|
    ensures d.Decode(offset) / SECTOR_SIZE * SECTOR_SIZE + SECTOR_SIZE <= |d.mem|
  {
    hide Device.Decode, PowerOfTwo;
    DecodeIsEven(d, offset);
    BlocksAreSectors(|d.mem|);
    UnitFits(d.Decode(offset), |d.mem|, BLOCK_SIZE);
    UnitFits(d.Decode(offset), |d.mem|, SECTOR_SIZE);
  }

  function Filled(mem: seq<uint8>, from: nat, to: nat): (s: seq<uint8>)
    ensures |s| == |mem|
  {
    seq(|mem|, k requires 0 <= k < |mem| => if from <= k < to then 0xFF else mem[k])
  }

  function Marked(dirty: seq<bool>, first: nat, last: nat): (s: seq<bool>)
    ensures |s| == |dirty|
  {
    seq(|dirty|, k requires 0 <= k < |dirty| => dirty[k] || first <= k <= last)
  }

  /** for_min_bytes: the smaller part if it is large enough, and otherwise the larger one. */
  const SMALL_PART := 0x8_0000
  const LARGE_PART := 0x20_0000

  function ForMinBytes(bytes: nat): (d: Device)
    ensures d.Valid() && d.state == Normal
  {
    var size := if bytes <= SMALL_PART then SMALL_PART else LARGE_PART;
    PartsArePowersOfTwo();
    Blank(size)
  }

  function Blank(size: nat): (d: Device)
    requires PowerOfTwo(size) && size % BLOCK_SIZE == 0
    ensures d.Valid() && d.state == Normal && |d.mem| == size
  {
    BlocksAreSectors(size);
    Device(seq(size, _ => 0xFF), seq(size / SECTOR_SIZE, _ => false), Normal)
  }

  lemma PartsArePowersOfTwo()
    ensures PowerOfTwo(SMALL_PART) && PowerOfTwo(LARGE_PART)
  {
    assert PowerOfTwo(1);
    hide PowerOfTwo;
    SixteenTimes(1);
    SixteenTimes(0x10);
    SixteenTimes(0x100);
    SixteenTimes(0x1000);
    Twice(0x1_0000);
    Twice(0x2_0000);
    Twice(0x4_0000);
    SixteenTimes(0x1_0000);
    Twice(0x10_0000);
  }

  lemma Twice(n: nat)
    requires PowerOfTwo(n)
    ensures PowerOfTwo(2 * n)
  {
    assert 2 * n / 2 == n;
  }

  lemma SixteenTimes(n: nat)
    requires PowerOfTwo(n)
    ensures PowerOfTwo(16 * n)
  {
    hide PowerOfTwo;
    Twice(n);
    Twice(2 * n);
    Twice(4 * n);
    Twice(8 * n);
  }

  lemma WriteKeepsValid(d: Device, w: Cycle)
    requires d.Valid()
    ensures d.Write(w).Valid()
  {
  }

  // ---- runs of writes: memory is protected by the unlock sequences ----

  function Run(d: Device, ws: seq<Cycle>): (d': Device)
    requires d.Valid()
    ensures d'.Valid() && |d'.mem| == |d.mem|
  {
    if ws == [] then d
    else
      var before := Run(d, ws[..|ws| - 1]);
      WriteKeepsValid(before, ws[|ws| - 1]);
      before.Write(ws[|ws| - 1])
  }

  /** One cycle of an unlock sequence. */
  datatype Key = Key(addr: nat, cmd: uint8)

  const UNLOCK := [Key(CMD_ADDR_1, 0xAA), Key(CMD_ADDR_2, 0x55)]
  const PROGRAM := UNLOCK + [Key(CMD_ADDR_1, 0xA0)]
  const ERASE := UNLOCK + [Key(CMD_ADDR_1, 0x80)] + UNLOCK
  const ENTER_ID := UNLOCK + [Key(CMD_ADDR_1, 0x90)]
  const ENTER_CFI := UNLOCK + [Key(CMD_ADDR_1, 0x98)]

  /** The last writes of `ws` spell `keys`. */
  predicate EndsWith(d: Device, ws: seq<Cycle>, keys: seq<Key>)
    requires d.Valid()
  {
    |keys| <= |ws|
    && forall k | 0 <= k < |keys| :: d.Sees(ws[|ws| - |keys| + k], keys[k].addr, keys[k].cmd)
  }

  /** What each state tells about the writes that led to it. */
  function Spelled(state: Command): seq<Key> {
    match state
    case Enter1 => UNLOCK[..1]
    case Enter2 => UNLOCK
    case Enter3 => ERASE[..3]
    case Enter4 => ERASE[..4]
    case Enter5 => ERASE
    case WordProgram => PROGRAM
    case _ => []
  }

  lemma EndsWithOneMore(d: Device, ws: seq<Cycle>, w: Cycle, keys: seq<Key>, key: Key)
    requires d.Valid() && EndsWith(d, ws, keys) && d.Sees(w, key.addr, key.cmd)
    ensures EndsWith(d, ws + [w], keys + [key])
  {
    var ws', keys' := ws + [w], keys + [key];
    forall k | 0 <= k < |keys'|
      ensures d.Sees(ws'[|ws'| - |keys'| + k], keys'[k].addr, keys'[k].cmd)
    {
      if k < |keys| {
        assert ws'[|ws'| - |keys'| + k] == ws[|ws| - |keys| + k];
      }
    }
  }

  /** Each transition of the state machine extends what has been spelled by one key, or starts over. */
  lemma AdvanceSpells(d: Device, w: Cycle)
    requires d.Valid()
    ensures
      var s, s' := Spelled(d.state), Spelled(d.Write(w).state);
      s' == [] || (|s'| == |s| + 1 && s'[..|s|] == s && d.Sees(w, s'[|s|].addr, s'[|s|].cmd))
  {
  }

  /** From a reset chip, a state other than Normal and the query modes is reached only by
      writing its unlock sequence, without a gap, as the last writes. */
  lemma {:induction false} StateSpelled(d: Device, ws: seq<Cycle>)
    requires d.Valid() && d.state == Normal
    ensures EndsWith(d, ws, Spelled(Run(d, ws).state))
  {
    if ws != [] {
      var n := |ws| - 1;
      var before := Run(d, ws[..n]);
      StateSpelled(d, ws[..n]);
      AdvanceSpells(before, ws[n]);
      var s, s' := Spelled(before.state), Spelled(Run(d, ws).state);
      if s' != [] {
        assert before.Sees(ws[n], s'[|s|].addr, s'[|s|].cmd) == d.Sees(ws[n], s'[|s|].addr, s'[|s|].cmd);
        EndsWithOneMore(d, ws[..n], ws[n], s, s'[|s|]);
        assert s + [s'[|s|]] == s' && ws[..n] + [ws[n]] == ws;
      }
    }
  }

  /** Nothing but the addressed halfword changes, and it becomes `data`. */
  predicate Programmed(before: Device, after: Device, w: Cycle)
    requires before.Valid() && |after.mem| == |before.mem|
  {
    var off := before.Decode(w.offset);
    forall k | 0 <= k < |before.mem| ::
      after.mem[k] == if k == off then w.data % 0x100 else if k == off + 1 then w.data / 0x100 else before.mem[k]
  }

  /** Nothing but the bytes of the erase command's range changes, and they become 0xFF. */
  predicate Erased(before: Device, after: Device, w: Cycle)
    requires before.Valid() && |after.mem| == |before.mem|
  {
    var (from, span) := before.EraseRange(w);
    forall k | 0 <= k < |before.mem| :: after.mem[k] == if from <= k < from + span then 0xFF else before.mem[k]
  }

  /** The ranges: the aligned sector or block around the address, or the whole chip. */
  lemma EraseRangeMeans(d: Device, w: Cycle)
    requires d.Valid()
    ensures
      var (from, span) := d.EraseRange(w);
      var off, cmd := d.Decode(w.offset), w.data % 0x100;
      && from + span <= |d.mem|
      && (cmd == 0x30 ==> span == 0x1000 && from % 0x1000 == 0 && from <= off < from + span)
      && (cmd == 0x50 ==> span == 0x1_0000 && from % 0x1_0000 == 0 && from <= off < from + span)
      && (cmd == 0x10 ==> (span > 0 <==> off / 2 == 0x5555) && (span > 0 ==> from == 0 && span == |d.mem|))
      && (cmd != 0x10 && cmd != 0x30 && cmd != 0x50 ==> span == 0)
  {
    DecodeInRange(d, w.offset);
    hide Device.Decode, PowerOfTwo;
    RoundDownMeans(d.Decode(w.offset), SECTOR_SIZE);
    RoundDownMeans(d.Decode(w.offset), BLOCK_SIZE);
  }

  lemma RoundDownMeans(off: nat, unit: nat)
    requires unit > 0
    ensures off / unit * unit % unit == 0 && off / unit * unit <= off < off / unit * unit + unit
  {
    QuotientAndRest(off, unit);
    DivisionUnique(off / unit * unit, unit, off / unit, 0);
  }

  /** Over every run from reset, a write leaves memory as it is unless the writes just before it
      are the complete program sequence, or the complete five-cycle erase unlock and it is itself
      an erase command; and then it changes exactly what the command addresses. */
  lemma MemoryProtected(d: Device, ws: seq<Cycle>, w: Cycle)
    requires d.Valid() && d.state == Normal
    ensures
      var b, a := Run(d, ws), Run(d, ws).Write(w);
      || (a.mem == b.mem && a.dirty == b.dirty)
      || (EndsWith(d, ws, PROGRAM) && Programmed(b, a, w))
      || (EndsWith(d, ws, ERASE) && b.EraseRange(w).1 > 0 && Erased(b, a, w))
  {
    StateSpelled(d, ws);
    DecodeInRange(Run(d, ws), w.offset);
  }

  /** In the identification and CFI modes only a short exit does anything. */
  lemma {:induction false} QueryModesAreReadOnly(d: Device, ws: seq<Cycle>)
    requires d.Valid() && (d.state == SoftwareId || d.state == CfiQuery)
    requires forall k | 0 <= k < |ws| :: ws[k].data % 0x100 != 0xF0
    ensures Run(d, ws) == d
  {
    if ws != [] {
      QueryModesAreReadOnly(d, ws[..|ws| - 1]);
    }
  }

  /** A short exit puts the chip into Normal from every state, so any sequence after it works. */
  lemma ShortExitResynchronises(d: Device, w: Cycle)
    requires d.Valid() && w.data % 0x100 == 0xF0
    ensures d.Write(w).state == Normal
  {
  }

  predicate Spells(d: Device, ws: seq<Cycle>, keys: seq<Key>)
    requires d.Valid()
  {
    |ws| == |keys| && EndsWith(d, ws, keys)
  }

  /** Conversely the sequences do unlock: from Normal, the program sequence commits the next
      write, and the erase sequence arms the next erase command. */
  lemma SequencesUnlock(d: Device, ws: seq<Cycle>, w: Cycle)
    requires d.Valid() && d.state == Normal
    ensures Spells(d, ws, PROGRAM) ==> Run(d, ws) == d.(state := WordProgram) && Programmed(d, Run(d, ws).Write(w), w)
    ensures Spells(d, ws, ERASE) && d.EraseRange(w).1 > 0 ==>
              Run(d, ws) == d.(state := Enter5) && Erased(d, Run(d, ws).Write(w), w)
  {
    if Spells(d, ws, PROGRAM) {
      UnlockPrefix(d, ws, PROGRAM, [Enter1, Enter2, WordProgram], 3);
      assert ws[..3] == ws;
      DecodeInRange(d, w.offset);
    }
    if Spells(d, ws, ERASE) {
      UnlockPrefix(d, ws, ERASE, [Enter1, Enter2, Enter3, Enter4, Enter5], 5);
      assert ws[..5] == ws;
      DecodeInRange(d, w.offset);
    }
  }

  /** The query sequences enter their modes without touching memory, and reads then give the
      entry of the mode's table at the halfword's address. */
  lemma SequencesQuery(d: Device, ws: seq<Cycle>, offset: uint32)
    requires d.Valid() && d.state == Normal
    ensures Spells(d, ws, ENTER_ID) ==>
              Run(d, ws) == d.(state := SoftwareId) && Read16(Run(d, ws), offset) == IdEntry(d.Decode(offset) / 2)
    ensures Spells(d, ws, ENTER_CFI) ==>
              Run(d, ws) == d.(state := CfiQuery) && Read16(Run(d, ws), offset) == CfiEntry(d.Decode(offset) / 2)
  {
    assert ENTER_ID[2].cmd == 0x90 && ENTER_CFI[2].cmd == 0x98;
    hide Run, Spells, PowerOfTwo;
    if Spells(d, ws, ENTER_ID) {
      QueryEntered(d, ws, ENTER_ID);
    }
    if Spells(d, ws, ENTER_CFI) {
      QueryEntered(d, ws, ENTER_CFI);
    }
  }

  lemma QueryEntered(d: Device, ws: seq<Cycle>, keys: seq<Key>)
    requires d.Valid() && d.state == Normal && Spells(d, ws, keys) && (keys == ENTER_ID || keys == ENTER_CFI)
    ensures Run(d, ws) == d.(state := if keys == ENTER_ID then SoftwareId else CfiQuery)
  {
    var unlocked := ws[..2];
    assert d.Sees(ws[|ws| - |keys| + 0], keys[0].addr, keys[0].cmd);
    assert d.Sees(ws[|ws| - |keys| + 1], keys[1].addr, keys[1].cmd);
    assert d.Sees(ws[|ws| - |keys| + 2], keys[2].addr, keys[2].cmd);
    assert keys[..2] == UNLOCK;
    UnlockPrefix(d, unlocked, UNLOCK, [Enter1, Enter2], 2);
    assert unlocked[..2] == unlocked && ws[..|ws| - 1] == unlocked;
    hide PowerOfTwo, Device.Decode, Device.Commit, Device.Erase, Device.EraseRange;
    assert keys[2].addr == CMD_ADDR_1 && keys[2].cmd == if keys == ENTER_ID then 0x90 else 0x98 by {
      assert ENTER_ID[2].cmd == 0x90 && ENTER_CFI[2].cmd == 0x98;
    }
  }

  /** Writing the keys one by one walks through the states named after them. */
  lemma {:induction false} UnlockPrefix(d: Device, ws: seq<Cycle>, keys: seq<Key>, states: seq<Command>, n: nat)
    requires d.Valid() && d.state == Normal && Spells(d, ws, keys) && n <= |keys| == |states|
    requires forall k | 0 <= k < |keys| :: Spelled(states[k]) == keys[..k + 1]
    ensures Run(d, ws[..n]) == d.(state := if n == 0 then Normal else states[n - 1])
  {
    hide Device.Write, PowerOfTwo;
    if n > 0 {
      UnlockPrefix(d, ws, keys, states, n - 1);
      assert ws[..n][..n - 1] == ws[..n - 1];
      var key := keys[n - 1];
      assert d.Sees(ws[|ws| - |keys| + (n - 1)], key.addr, key.cmd);
      assert Spelled(states[n - 1])[n - 1] == key;
      KeyAdvances(Run(d, ws[..n - 1]), ws[n - 1], key, states[n - 1]);
    }
  }

  /** The key that makes one spelling out of another takes the chip from the one state to the other. */
  lemma KeyAdvances(d: Device, w: Cycle, key: Key, next: Command)
    requires d.Valid() && d.Sees(w, key.addr, key.cmd) && Spelled(next) == Spelled(d.state) + [key]
    requires d.state !in {SoftwareId, CfiQuery}
    ensures d.Write(w) == d.(state := next)
  {
    hide Device.Decode, Device.Erase, Device.Commit, PowerOfTwo;
    var s := Spelled(d.state);
    assert Spelled(next)[|s|] == key && Spelled(next)[..|s|] == s;
    assert |s| >= 3 ==> Spelled(next)[2] == s[2];
    match d.state
    case Normal => assert key == UNLOCK[0] && next == Enter1;
    case Enter1 => assert key == UNLOCK[1] && next == Enter2;
    case Enter2 => assert key == PROGRAM[2] || key == ERASE[2];
    case Enter3 => assert key == ERASE[3] && next == Enter4;
    case Enter4 => assert key == ERASE[4] && next == Enter5;
    case _ =>
      assert false;
  }

  // ---- reading back ----

  /** A read gives device memory, or in the query modes an entry of a constant table. */
  datatype ReadResult = Data(value: uint16) | IdEntry(addr: nat) | CfiEntry(addr: nat)

  function Read16(d: Device, offset: uint32): ReadResult
    requires d.Valid()
  {
    DecodeInRange(d, offset);
    match d.state
    case CfiQuery => CfiEntry(d.Decode(offset) / 2)
    case SoftwareId => IdEntry(d.Decode(offset) / 2)
    case _ => Data(BusModel.Load16(d.mem, d.Decode(offset)))
  }

  /** A programmed halfword reads back whole, whatever it held before, and every other halfword
      of the chip reads as before. */
  lemma ProgramReadsBack(d: Device, ws: seq<Cycle>, w: Cycle, offset: uint32)
    requires d.Valid() && d.state == Normal && Spells(d, ws, PROGRAM)
    ensures Run(d, ws).Write(w).Valid()
    ensures Read16(Run(d, ws).Write(w), offset)
         == if d.Decode(offset) == d.Decode(w.offset) then Data(w.data) else Read16(d, offset)
  {
    SequencesUnlock(d, ws, w);
    WriteKeepsValid(Run(d, ws), w);
    DecodeInRange(d, offset);
    DecodeInRange(d, w.offset);
    EvenApart(d.Decode(offset), d.Decode(w.offset));
    hide Device.Decode, Run, PowerOfTwo;
    assert w.data == w.data % 0x100 + 0x100 * (w.data / 0x100);
  }

  lemma EvenApart(a: nat, b: nat)
    requires a % 2 == 0 && b % 2 == 0
    ensures a != b + 1 && b != a + 1
  {
  }

  /** After an erase the halfwords of its range read 0xFFFF and all others as before. */
  lemma EraseReadsBlank(d: Device, ws: seq<Cycle>, w: Cycle, offset: uint32)
    requires d.Valid() && d.state == Normal && Spells(d, ws, ERASE) && d.EraseRange(w).1 > 0
    ensures Run(d, ws).Write(w).Valid()
    ensures
      var (from, span) := d.EraseRange(w);
      Read16(Run(d, ws).Write(w), offset)
      == if from <= d.Decode(offset) < from + span then Data(0xFFFF) else Read16(d, offset)
  {
    SequencesUnlock(d, ws, w);
    WriteKeepsValid(Run(d, ws), w);
    DecodeInRange(d, offset);
    EraseRangeEven(d, w);
    var (from, span) := d.EraseRange(w);
    BlankHalfword(d.mem, Run(d, ws).Write(w).mem, from, span, d.Decode(offset));
    hide Device.Decode, Device.EraseRange, Device.Write, Run, PowerOfTwo;
  }

  lemma BlankHalfword(before: seq<uint8>, after: seq<uint8>, from: nat, span: nat, off: nat)
    requires |after| == |before| && off + 1 < |before| && from % 2 == 0 && span % 2 == 0 && off % 2 == 0
    requires forall k | 0 <= k < |before| :: after[k] == if from <= k < from + span then 0xFF else before[k]
    ensures BusModel.Load16(after, off)
         == if from <= off < from + span then 0xFFFF else BusModel.Load16(before, off)
  {
    EvenApart(off, from);
    EvenApart(off, from + span);
  }

  lemma EraseRangeEven(d: Device, w: Cycle)
    requires d.Valid()
    ensures d.EraseRange(w).0 % 2 == 0 && d.EraseRange(w).1 % 2 == 0
  {
    hide Device.Decode, PowerOfTwo;
    BlocksAreSectors(|d.mem|);
    EvenMultiple(d.Decode(w.offset) / SECTOR_SIZE, SECTOR_SIZE);
    EvenMultiple(d.Decode(w.offset) / BLOCK_SIZE, BLOCK_SIZE);
  }

  lemma EvenMultiple(k: nat, unit: nat)
    requires unit % 2 == 0
    ensures k * unit % 2 == 0
  {
    var half := unit / 2;
    assert k * unit == k * half * 2 + 0;
    DivisionUnique(k * unit, 2, k * half, 0);
  }

  // ---- dirty sectors ----

  function SectorOf(k: nat): nat { k / SECTOR_SIZE }

  /** Memory agrees with `baseline` on every clean sector. */
  predicate CleanAgrees(d: Device, baseline: seq<uint8>)
    requires d.Valid() && |baseline| == |d.mem|
  {
    forall k | 0 <= k < |d.mem| && !d.dirty[SectorOf(k)] :: d.mem[k] == baseline[k]
  }

  /** A write marks every sector it changes, and never cleans one. */
  lemma WriteMarks(d: Device, w: Cycle)
    requires d.Valid()
    ensures forall i | 0 <= i < |d.dirty| && d.dirty[i] :: d.Write(w).dirty[i]
    ensures forall k | 0 <= k < |d.mem| && !d.Write(w).dirty[SectorOf(k)] :: d.Write(w).mem[k] == d.mem[k]
  {
    DecodeInRange(d, w.offset);
    if d.state == Enter5 && w.data % 0x100 != 0xF0 && d.EraseRange(w).1 > 0 {
      EraseRangeMeans(d, w);
    }
  }

  function LoadImage(d: Device, off: nat, data: seq<uint8>): (d': Device)
    requires d.Valid() && off + |data| <= |d.mem|
    ensures d'.Valid() && |d'.mem| == |d.mem|
  {
    d.(mem := d.mem[..off] + data + d.mem[off + |data|..])
  }

  function ClearDirty(d: Device): (d': Device)
    requires d.Valid()
    ensures d'.Valid()
  {
    d.(dirty := seq(|d.dirty|, _ => false))
  }

  /** Everything that touches a chip in use. */
  datatype Event = Writes(w: Cycle) | Loads(off: nat, data: seq<uint8>) | Clears | Resets

  predicate Possible(events: seq<Event>, size: nat) {
    forall k | 0 <= k < |events| :: events[k].Loads? ==> events[k].off + |events[k].data| <= size
  }

  /** The chip and the contents it had at the last clear or load. */
  function Track(d: Device, baseline: seq<uint8>, events: seq<Event>): (r: (Device, seq<uint8>))
    requires d.Valid() && |baseline| == |d.mem|
    requires Possible(events, |d.mem|)
    ensures r.0.Valid() && |r.0.mem| == |d.mem| == |r.1|
  {
    if events == [] then (d, baseline)
    else
      var (b, base) := Track(d, baseline, events[..|events| - 1]);
      match events[|events| - 1]
      case Writes(w) => WriteKeepsValid(b, w); (b.Write(w), base)
      case Loads(off, data) => (LoadImage(b, off, data), base[..off] + data + base[off + |data|..])
      case Clears => (ClearDirty(b), b.mem)
      case Resets => (b.(state := Normal), base)
  }

  /** In every reachable state each clean sector holds what it held at the last clear or load. */
  lemma {:induction false} CleanSectorsUnchanged(d: Device, baseline: seq<uint8>, events: seq<Event>)
    requires d.Valid() && |baseline| == |d.mem| && CleanAgrees(d, baseline)
    requires Possible(events, |d.mem|)
    ensures CleanAgrees(Track(d, baseline, events).0, Track(d, baseline, events).1)
  {
    if events != [] {
      var n := |events| - 1;
      CleanSectorsUnchanged(d, baseline, events[..n]);
      var (b, base) := Track(d, baseline, events[..n]);
      match events[n] {
        case Writes(w) => WriteMarks(b, w);
        case Loads(off, data) => assert off + |data| <= |b.mem|;
        case _ =>
      }
    }
  }

  /** Over a run of writes: sectors clean at the end were never changed. */
  lemma {:induction false} RunMarks(d: Device, ws: seq<Cycle>)
    requires d.Valid()
    ensures forall k | 0 <= k < |d.mem| && !Run(d, ws).dirty[SectorOf(k)] :: Run(d, ws).mem[k] == d.mem[k]
  {
    if ws != [] {
      RunMarks(d, ws[..|ws| - 1]);
      WriteMarks(Run(d, ws[..|ws| - 1]), ws[|ws| - 1]);
    }
  }

  lemma {:induction false} RunKeepsDirty(d: Device, ws: seq<Cycle>)
    requires d.Valid()
    ensures |Run(d, ws).dirty| == |d.dirty|
    ensures forall i | 0 <= i < |d.dirty| && d.dirty[i] :: Run(d, ws).dirty[i]
  {
    if ws != [] {
      RunKeepsDirty(d, ws[..|ws| - 1]);
      WriteMarks(Run(d, ws[..|ws| - 1]), ws[|ws| - 1]);
    }
  }

  // ---- the dirty callback ----

  /** The sectors below n that are dirty after but not before, in ascending order. */
  function Fresh(before: seq<bool>, after: seq<bool>, n: nat): seq<nat>
    requires |before| == |after| && n <= |before|
  {
    if n == 0 then [] else Fresh(before, after, n - 1) + if !before[n - 1] && after[n - 1] then [n - 1] else []
  }

  lemma {:induction false} FreshMembers(before: seq<bool>, after: seq<bool>, n: nat, x: nat)
    requires |before| == |after| && n <= |before|
    ensures x in Fresh(before, after, n) <==> x < n && !before[x] && after[x]
  {
    if n > 0 {
      FreshMembers(before, after, n - 1, x);
    }
  }

  predicate ChipErases(d: Device, w: Cycle)
    requires d.Valid()
  {
    d.state == Enter5 && w.data % 0x100 == 0x10 && d.Decode(w.offset) / 2 == CMD_ADDR_1
  }

  /** The sectors on_dirty is called with: chip erase calls it for all of them. */
  function Notified(d: Device, w: Cycle): seq<nat>
    requires d.Valid()
  {
    if ChipErases(d, w) then seq(|d.dirty|, i => i) else Fresh(d.dirty, d.Write(w).dirty, |d.dirty|)
  }

  /** The header promises a call exactly when a sector first turns dirty.  That holds unless a
      chip erase finds some sector dirty already. */
  lemma CallbackMeansFirstDirtyIff(d: Device, w: Cycle)
    requires d.Valid()
    ensures Notified(d, w) == Fresh(d.dirty, d.Write(w).dirty, |d.dirty|)
       <==> !(ChipErases(d, w) && exists i | 0 <= i < |d.dirty| :: d.dirty[i])
  {
    if ChipErases(d, w) {
      assert forall i | 0 <= i < |d.dirty| :: d.Write(w).dirty[i];
      if exists i | 0 <= i < |d.dirty| :: d.dirty[i] {
        var i :| 0 <= i < |d.dirty| && d.dirty[i];
        FreshMembers(d.dirty, d.Write(w).dirty, |d.dirty|, i);
        assert Notified(d, w)[i] == i && i !in Fresh(d.dirty, d.Write(w).dirty, |d.dirty|);
      } else {
        FreshAll(d.dirty, d.Write(w).dirty, |d.dirty|);
      }
    }
  }

  /** Where it fails: a chip erase while sector 0 is dirty reports sector 0 again. */
  lemma ChipEraseReportsAgain(d: Device)
    requires d.Valid() && d.state == Enter5 && d.dirty[0]
    ensures
      var w := Cycle(0xAAAA, 0x10);
      0 in Notified(d, w) && 0 !in Fresh(d.dirty, d.Write(w).dirty, |d.dirty|)
  {
    var w := Cycle(0xAAAA, 0x10);
    hide PowerOfTwo;
    assert d.Decode(w.offset) == 0xAAAA by {
      DivisionUnique(0xAAAA, |d.mem|, 0, 0xAAAA);
    }
    hide Device.Decode;
    assert Notified(d, w)[0] == 0;
    FreshMembers(d.dirty, d.Write(w).dirty, |d.dirty|, 0);
  }

  lemma {:induction false} FreshAll(before: seq<bool>, after: seq<bool>, n: nat)
    requires |before| == |after| && n <= |before|
    requires forall k | 0 <= k < |before| :: !before[k] && after[k]
    ensures Fresh(before, after, n) == seq(n, i => i)
  {
    if n > 0 {
      FreshAll(before, after, n - 1);
    }
  }

  lemma {:induction false} FreshSkips(before: seq<bool>, after: seq<bool>, lo: nat, hi: nat)
    requires |before| == |after| && lo <= hi <= |before|
    requires forall k | lo <= k < hi :: before[k] == after[k]
    ensures Fresh(before, after, hi) == Fresh(before, after, lo)
    decreases hi
  {
    if lo < hi {
      FreshSkips(before, after, lo, hi - 1);
    }
  }

  // ---- the chip object ----

  class Sst39vf {
    const mem: array<uint8>
    const dirty: array<bool>
    var state: Command
    var notified: seq<nat>  // the calls made to on_dirty, in order

    constructor (size: nat)
      requires PowerOfTwo(size) && size > 0 && size % BLOCK_SIZE == 0
      ensures Valid() && fresh(mem) && fresh(dirty)
      ensures View() == Blank(size)
      ensures notified == []
    {
      hide PowerOfTwo;
      BlocksAreSectors(size);
      mem := new uint8[size](_ => 0xFF);
      dirty := new bool[size / SECTOR_SIZE](_ => false);
      state, notified := Normal, [];
    }

    ghost predicate Valid()
      reads this, mem, dirty
    {
      View().Valid()
    }

    ghost function View(): Device
      reads this, mem, dirty
    {
      Device(mem[..], dirty[..], state)
    }

    method MarkDirty(offset: nat, span: nat)
      requires span > 0 && offset + span <= SECTOR_SIZE * dirty.Length
      modifies this`notified, dirty
      ensures dirty[..] == Marked(old(dirty[..]), offset / SECTOR_SIZE, (offset + span - 1) / SECTOR_SIZE)
      ensures notified == old(notified) + Fresh(old(dirty[..]), dirty[..], dirty.Length)
    {
      var start, end := offset / SECTOR_SIZE, (offset + span - 1) / SECTOR_SIZE;
      ghost var was := dirty[..];
      ghost var goal := Marked(was, start, end);
      FreshSkips(was, goal, 0, start);
      var s := start;
      while s <= end && s < dirty.Length
        invariant start <= s <= dirty.Length && s <= end + 1
        invariant forall k | 0 <= k < dirty.Length :: dirty[k] == if k < s then goal[k] else was[k]
        invariant notified == old(notified) + Fresh(was, goal, s)
      {
        if !dirty[s] {
          dirty[s] := true;
          notified := notified + [s];
        }
        s := s + 1;
      }
      FreshSkips(was, goal, s, dirty.Length);
      assert dirty[..] == goal;
    }

    method Write16(offset: uint32, data: uint16)
      requires Valid()
      modifies this, mem, dirty
      ensures Valid() && View() == old(View()).Write(Cycle(offset, data))
      ensures notified == old(notified) + Notified(old(View()), Cycle(offset, data))
    {
      ghost var d := View();
      var w := Cycle(offset, data);
      DecodeInRange(d, offset);
      var off := offset % mem.Length / 2 * 2;
      var cmd := data % 0x100;
      WriteKeepsValid(d, w);
      if state != WordProgram && cmd == 0xF0 {
        state := Normal;
        NothingFresh(d.dirty);
        return;
      }
      match state {
        case WordProgram =>
          mem[off], mem[off + 1] := data % 0x100, data / 0x100;
          MarkDirty(off, 2);
          state := Normal;
        case Enter5 =>
          SixthCycle(w, off);
        case _ =>
          state := NextState(w, off / 2, cmd);
          NothingFresh(d.dirty);
      }
    }

    method Read(offset: uint32) returns (r: ReadResult)
      requires Valid()
      ensures r == Read16(View(), offset)
    {
      DecodeInRange(View(), offset);
      var off := offset % mem.Length / 2 * 2;
      match state {
        case CfiQuery =>
          r := CfiEntry(off / 2);
        case SoftwareId =>
          r := IdEntry(off / 2);
        case _ =>
          var lo: int, hi: int := mem[off], mem[off + 1];
          r := Data(lo + 0x100 * hi);
      }
    }

    /** The unlock transitions. */
    method NextState(w: Cycle, addr: nat, cmd: uint8) returns (next: Command)
      requires Valid() && state != WordProgram && state != Enter5
      requires addr == View().Decode(w.offset) / 2 && cmd == w.data % 0x100
      ensures next == View().Advance(w)
    {
      next := Normal;
      match state {
        case Normal =>
          if addr == CMD_ADDR_1 && cmd == 0xAA {
            next := Enter1;
          }
        case Enter1 =>
          if addr == CMD_ADDR_2 && cmd == 0x55 {
            next := Enter2;
          }
        case Enter2 =>
          if addr == CMD_ADDR_1 {
            if cmd == 0x80 {
              next := Enter3;
            } else if cmd == 0x90 {
              next := SoftwareId;
            } else if cmd == 0x98 {
              next := CfiQuery;
            } else if cmd == 0xA0 {
              next := WordProgram;
            }
          }
        case Enter3 =>
          if addr == CMD_ADDR_1 && cmd == 0xAA {
            next := Enter4;
          }
        case Enter4 =>
          if addr == CMD_ADDR_2 && cmd == 0x55 {
            next := Enter5;
          }
        case _ =>
          next := state;
      }
    }

    /** The write after the full erase unlock. */
    method SixthCycle(w: Cycle, off: nat)
      requires Valid() && state == Enter5 && w.data % 0x100 != 0xF0 && off == View().Decode(w.offset)
      modifies this, mem, dirty
      ensures View() == old(View()).Write(w)
      ensures notified == old(notified) + Notified(old(View()), w)
    {
      ghost var d := View();
      DecodeInRange(d, w.offset);
      hide PowerOfTwo, Device.Decode, Filled, Marked, Fresh;
      var cmd := w.data % 0x100;
      if cmd == 0x10 && off / 2 == CMD_ADDR_1 {
        EraseChip();
      } else if cmd == 0x30 {
        EraseSpan(off / SECTOR_SIZE * SECTOR_SIZE, SECTOR_SIZE);
      } else if cmd == 0x50 {
        EraseSpan(off / BLOCK_SIZE * BLOCK_SIZE, BLOCK_SIZE);
      } else {
        NothingFresh(d.dirty);
      }
      state := Normal;
    }

    method EraseSpan(base: nat, span: nat)
      requires span > 0 && base + span <= mem.Length == SECTOR_SIZE * dirty.Length
      modifies this`notified, mem, dirty
      ensures View().(state := Normal) == old(View()).Erase(base, span)
      ensures notified == old(notified) + Fresh(old(dirty[..]), dirty[..], dirty.Length)
    {
      Fill(base, span);
      MarkDirty(base, span);
    }

    method EraseChip()
      requires Valid()
      modifies this`notified, mem, dirty
      ensures View().(state := Normal) == old(View()).Erase(0, mem.Length)
      ensures notified == old(notified) + seq(dirty.Length, i => i)
    {
      Fill(0, mem.Length);
      forall i | 0 <= i < dirty.Length {
        dirty[i] := true;
      }
      assert dirty[..] == Marked(old(dirty[..]), 0, (mem.Length - 1) / SECTOR_SIZE);
      notified := notified + seq(dirty.Length, i => i);
    }

    method Fill(base: nat, span: nat)
      requires base + span <= mem.Length
      modifies mem
      ensures mem[..] == Filled(old(mem[..]), base, base + span)
    {
      forall k | base <= k < base + span {
        mem[k] := 0xFF;
      }
    }

    method Clear()
      requires Valid()
      modifies dirty
      ensures View() == ClearDirty(old(View()))
    {
      forall i | 0 <= i < dirty.Length {
        dirty[i] := false;
      }
    }

    /** load_image: the loader brings the chip in step with a file, so nothing turns dirty. */
    method Load(off: nat, data: seq<uint8>) returns (ok: bool)
      requires Valid()
      modifies mem
      ensures ok == (off + |data| <= mem.Length)
      ensures View() == if ok then LoadImage(old(View()), off, data) else old(View())
    {
      ok := off + |data| <= mem.Length;
      if ok {
        forall k | 0 <= k < |data| {
          mem[off + k] := data[k];
        }
        assert mem[..] == LoadImage(old(View()), off, data).mem;
      } else {
        assert mem[..] == old(mem[..]);
      }
    }
  }

  lemma NothingFresh(dirty: seq<bool>)
    ensures Fresh(dirty, dirty, |dirty|) == []
  {
    FreshSkips(dirty, dirty, 0, |dirty|);
  }
}
