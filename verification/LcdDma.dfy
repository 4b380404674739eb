/** Display transfer: the channel-0 DMA loop, the LCD controller it feeds and the conversion of
    video memory to pixels (peripheral_hsdma.cpp, s6b0741.cpp). */
module LcdDma {
  import opened Words
  import opened BusModel
  import opened DivMod

  const PAGES := 16
  const COLUMNS := 256
  const WIDTH := 128
  const HEIGHT := 88

  type Page = x: nat | x < PAGES
  type Column = x: nat | x < COLUMNS

  // ---- the controller ----

  /** The board wires the data bus backwards: bit k of the controller is bit 7 - k of the CPU. */
  function Reverse(data: bv8): bv8 {
    ((data & 0x01) << 7) | ((data & 0x02) << 5) | ((data & 0x04) << 3) | ((data & 0x08) << 1)
    | ((data & 0x10) >> 1) | ((data & 0x20) >> 3) | ((data & 0x40) >> 5) | ((data & 0x80) >> 7)
  }

  lemma ReverseTwice(data: bv8)
    ensures Reverse(Reverse(data)) == data
  {
  }

  /** Bit k of the result is bit 7 - k of the argument. */
  lemma ReverseMeans(data: bv8)
    ensures (Reverse(data) & 0x01 != 0 <==> data & 0x80 != 0) && (Reverse(data) & 0x80 != 0 <==> data & 0x01 != 0)
    ensures (Reverse(data) & 0x02 != 0 <==> data & 0x40 != 0) && (Reverse(data) & 0x40 != 0 <==> data & 0x02 != 0)
    ensures (Reverse(data) & 0x04 != 0 <==> data & 0x20 != 0) && (Reverse(data) & 0x20 != 0 <==> data & 0x04 != 0)
    ensures (Reverse(data) & 0x08 != 0 <==> data & 0x10 != 0) && (Reverse(data) & 0x10 != 0 <==> data & 0x08 != 0)
  {
  }

  /** Video memory, one row of columns per page, and the address cursor. */
  datatype Lcd = Lcd(vram: seq<seq<bv8>>, page: Page, column: Column)
  {
    predicate Valid() {
      |vram| == PAGES && forall p | 0 <= p < PAGES :: |vram[p]| == COLUMNS
    }

    /** A byte sent with the data line low: column address low or high part, or page address. */
    function Command(data: bv8): Lcd {
      var d := Reverse(data);
      var low := LowNibble(d);
      if d & 0xF0 == 0x00 then this.(column := column / 32 * 32 + 2 * low)
      else if d & 0xF0 == 0x10 then this.(column := column / 2 % 16 * 2 + 32 * (low % 8))
      else if d & 0xF0 == 0xB0 then this.(page := low)
      else this
    }

    /** A byte sent with the data line high: stored, and the cursor moves on within the page. */
    function WriteData(data: bv8): (l: Lcd)
      requires Valid()
      ensures l.Valid()
    {
      this.(vram := vram[page := vram[page][column := Reverse(data)]], column := (column + 1) % COLUMNS)
    }
  }

  /** The low nibble of a byte. */
  function LowNibble(d: bv8): (n: nat)
    ensures n < 16
  {
    (d & 0x0F) as nat
  }

  /** The three address commands set the cursor, whatever it was. */
  lemma CommandsSetCursor(l: Lcd, low: bv8, high: bv8, pageCmd: bv8)
    requires l.Valid()
    requires Reverse(low) & 0xF0 == 0x00 && Reverse(high) & 0xF0 == 0x10 && Reverse(pageCmd) & 0xF0 == 0xB0
    ensures
      var l' := l.Command(low).Command(high).Command(pageCmd);
      l' == l.(page := LowNibble(Reverse(pageCmd)),
               column := 2 * LowNibble(Reverse(low)) + 32 * (LowNibble(Reverse(high)) % 8))
  {
    hide Reverse, LowNibble;
    var a, h := LowNibble(Reverse(low)), LowNibble(Reverse(high));
    var c1 := l.Command(low).column;
    assert c1 / 2 % 16 == a;
  }

  /** Every other command byte is absorbed, and no command touches video memory. */
  lemma OtherCommandsIgnored(l: Lcd, data: bv8)
    ensures
      var kind := Reverse(data) & 0xF0;
      kind != 0x00 && kind != 0x10 && kind != 0xB0 ==> l.Command(data) == l
    ensures l.Command(data).vram == l.vram
  {
    hide Reverse;
  }

  /** The bytes of `data` in order. */
  function WriteAll(l: Lcd, data: seq<bv8>): (l': Lcd)
    requires l.Valid()
    ensures l'.Valid()
  {
    if data == [] then l else WriteAll(l, data[..|data| - 1]).WriteData(data[|data| - 1])
  }

  /** The column byte j of a stream lands in. */
  function ColumnOf(start: Column, j: nat): Column { (start + j) % COLUMNS }

  /** One more than the index of the last of n bytes that lands in column c; 0 if none does. */
  function LastHit(start: Column, n: nat, c: Column): (k: nat)
    ensures k <= n
    ensures k > 0 ==> ColumnOf(start, k - 1) == c
    ensures forall j | k <= j < n :: ColumnOf(start, j) != c
  {
    if n == 0 then 0 else if ColumnOf(start, n - 1) == c then n else LastHit(start, n - 1, c)
  }

  /** A data stream of any length leaves each column of the page with the last byte that landed in
      it, reversed; the columns it did not reach and the other pages are as before. */
  lemma {:induction false} StreamLands(l: Lcd, data: seq<bv8>)
    requires l.Valid()
    ensures
      var l' := WriteAll(l, data);
      && l'.page == l.page && l'.column == (l.column + |data|) % COLUMNS
      && (forall p: Page | p != l.page :: l'.vram[p] == l.vram[p])
      && (forall c: Column ::
            var k := LastHit(l.column, |data|, c);
            l'.vram[l.page][c] == if k == 0 then l.vram[l.page][c] else Reverse(data[k - 1]))
  {
    if data != [] {
      var n := |data| - 1;
      StreamLands(l, data[..n]);
      ColumnNext(l.column + n);
    }
  }

  lemma ColumnNext(x: nat)
    ensures (x % COLUMNS + 1) % COLUMNS == (x + 1) % COLUMNS
  {
  }

  // ---- the transfer ----

  function ToBits(x: uint8): bv8 { x as bv8 }

  /** The bytes at n consecutive addresses, read one by one through the bus. */
  function ReadBytes(m: Memory, sadr: uint32, n: nat): (r: (seq<bv8>, Memory))
    requires m.Valid()
    ensures |r.0| == n && r.1.Valid()
  {
    if n == 0 then ([], m)
    else
      var (bytes, m1) := ReadBytes(m, sadr, n - 1);
      var (b, m2) := m1.Read8(Wrap32(sadr + n - 1));
      (bytes + [ToBits(b)], m2)
  }

  /** A source array in installed SRAM is delivered byte for byte. */
  lemma {:induction false} ReadsSram(m: Memory, sadr: uint32, n: nat)
    requires m.Valid() && SRAM_BASE <= sadr && sadr - SRAM_BASE + n <= |m.sram|
    ensures
      var (bytes, m') := ReadBytes(m, sadr, n);
      && m.SameBut(m', m.sram)
      && forall k | 0 <= k < n :: bytes[k] == ToBits(m.sram[sadr - SRAM_BASE + k])
  {
    hide Memory.Read8, ToBits;
    if n > 0 {
      ReadsSram(m, sadr, n - 1);
      var a := sadr + n - 1;
      WrapWord(a);
      ByteReads(ReadBytes(m, sadr, n - 1).1, a);
    }
  }

  /** The controller object: video memory page by page. */
  class S6b0741 {
    const vram: array2<bv8>
    var page: Page
    var column: Column

    constructor ()
      ensures Valid() && fresh(vram) && page == 0 && column == 0
    {
      vram := new bv8[PAGES, COLUMNS]((p, c) => 0);
      page, column := 0, 0;
    }

    ghost predicate Valid()
      reads this
    {
      vram.Length0 == PAGES && vram.Length1 == COLUMNS
    }

    ghost function Row(p: Page): seq<bv8>
      requires Valid()
      reads this, vram
    {
      seq(COLUMNS, c requires 0 <= c < COLUMNS reads this, vram => vram[p, c])
    }

    ghost function View(): Lcd
      requires Valid()
      reads this, vram
    {
      Lcd(seq(PAGES, p requires 0 <= p < PAGES reads this, vram => Row(p)), page, column)
    }

    method WriteCommand(data: bv8)
      requires Valid()
      modifies this`page, this`column
      ensures View() == old(View()).Command(data)
    {
      var d := Reverse(data);
      var low := LowNibble(d);
      if d & 0xF0 == 0x00 {
        column := column / 32 * 32 + 2 * low;
      } else if d & 0xF0 == 0x10 {
        column := column / 2 % 16 * 2 + 32 * (low % 8);
      } else if d & 0xF0 == 0xB0 {
        page := low;
      }
      assert forall p: Page :: Row(p) == old(Row(p));
      assert View().vram == old(View()).vram;
    }

    method WriteData(data: bv8)
      requires Valid()
      modifies this`column, vram
      ensures Valid() && old(View()).Valid() && View() == old(View()).WriteData(data)
    {
      ghost var old_ := View();
      vram[page, column] := Reverse(data);
      column := (column + 1) % COLUMNS;
      ghost var new_ := old_.WriteData(data);
      forall p: Page
        ensures Row(p) == new_.vram[p]
      {
        assert old_.vram[p] == old(Row(p));
      }
      assert View().vram == new_.vram;
    }
  }

  /** Channel 0 of the DMA controller: working copies and raw registers. */
  class Hsdma {
    var enabled: bool
    var cnt: uint32
    var sadr: uint32
    var regEnabled: bool
    var regCnt: uint32
    var regSadr: uint32
    var completions: nat  // the calls made to on_ch0_complete

    constructor ()
      ensures !enabled && cnt == 0 && completions == 0
    {
      enabled, cnt, sadr, regEnabled, regCnt, regSadr, completions := false, 0, 0, false, 0, 0, 0;
    }

    /** on_en_write: the enable bit, and the working copies reloaded from the registers. */
    method WriteEnable(on: bool)
      modifies this
      ensures enabled == regEnabled == on
      ensures cnt == old(regCnt) % 0x100_0000 && sadr == old(regSadr) % ADDRESS_SPACE
      ensures regCnt == old(regCnt) && regSadr == old(regSadr) && completions == old(completions)
    {
      regEnabled := on;
      enabled, cnt, sadr := on, regCnt % 0x100_0000, regSadr % ADDRESS_SPACE;
    }

    /** do_ch0_inline with the LCD in data mode behind the callback: an enabled channel with a
        count delivers exactly that many bytes in address order, disables itself and signals
        completion once; otherwise nothing happens. */
    method DoCh0Inline(bus: Bus, lcd: S6b0741)
      requires bus.mem.Valid() && lcd.Valid()
      modifies this, bus, lcd`column, lcd.vram
      ensures lcd.Valid() && old(lcd.View()).Valid()
      ensures
        var n := if old(enabled) then old(cnt) else 0;
        var (bytes, m) := ReadBytes(old(bus.mem), old(sadr), n);
        && lcd.View() == WriteAll(old(lcd.View()), bytes) && bus.mem == m
        && sadr == Wrap32(old(sadr) + n)
        && completions == old(completions) + (if n > 0 then 1 else 0)
        && (n > 0 ==> !enabled && !regEnabled && cnt == regCnt == 0 && regSadr == sadr)
        && (n == 0 ==> enabled == old(enabled) && cnt == old(cnt) && regEnabled == old(regEnabled)
                       && regCnt == old(regCnt) && regSadr == old(regSadr))
    {
      hide Wrap32, Memory.Read8, Memory.Valid, Lcd.Valid, Lcd.WriteData;
      ghost var start, from, mem0 := lcd.View(), sadr, bus.mem;
      ghost var total := if enabled then cnt else 0;
      ghost var done: nat := 0;
      ghost var sent: seq<bv8> := [];
      var completed := false;
      WrapWord(sadr);
      while enabled && cnt > 0
        invariant bus.mem.Valid() && lcd.Valid() && start.Valid()
        invariant done <= total && sadr == Wrap32(from + done)
        invariant (sent, bus.mem) == ReadBytes(mem0, from, done) && lcd.View() == WriteAll(start, sent)
        invariant completions == old(completions) && completed == (done > 0 && done == total)
        invariant done < total ==> enabled && cnt == total - done
        invariant done == total && total > 0 ==> !enabled && !regEnabled && cnt == 0
        invariant done > 0 ==> regCnt == cnt && regSadr == sadr
        invariant done == 0 ==> enabled == old(enabled) && cnt == old(cnt) && regEnabled == old(regEnabled)
                                && regCnt == old(regCnt) && regSadr == old(regSadr)
        decreases cnt
      {
        WrapNext(from + done);
        ghost var data := bus.mem.Read8(sadr).0;
        completed := TransferByte(bus, lcd);
        WriteAllSnoc(start, sent, ToBits(data));
        sent, done := sent + [ToBits(data)], done + 1;
      }
      if completed {
        completions := completions + 1;
      }
    }

    /** One turn of the loop. */
    method TransferByte(bus: Bus, lcd: S6b0741) returns (last: bool)
      requires bus.mem.Valid() && lcd.Valid() && enabled && cnt > 0
      modifies this`enabled, this`cnt, this`sadr, this`regEnabled, this`regCnt, this`regSadr
      modifies bus, lcd`column, lcd.vram
      ensures lcd.Valid() && old(lcd.View()).Valid()
      ensures
        var (b, m) := old(bus.mem).Read8(old(sadr));
        bus.mem == m && lcd.View() == old(lcd.View()).WriteData(ToBits(b))
      ensures sadr == regSadr == Wrap32(old(sadr) as int + 1) && cnt == regCnt == old(cnt) - 1
      ensures last == (cnt == 0) && enabled == !last && regEnabled == (old(regEnabled) && !last)
    {
      hide Wrap32, Memory.Read8, Memory.Valid, Lcd.WriteData;
      var data := bus.Read8(sadr);
      sadr, cnt := Wrap32(sadr as int + 1), cnt - 1;
      regSadr, regCnt := sadr, cnt;
      last := cnt == 0;
      if last {
        enabled, regEnabled := false, false;
      }
      lcd.WriteData(ToBits(data));
    }
  }

  lemma WriteAllSnoc(l: Lcd, data: seq<bv8>, x: bv8)
    requires l.Valid()
    ensures WriteAll(l, data).Valid() && WriteAll(l, data + [x]) == WriteAll(l, data).WriteData(x)
  {
    assert (data + [x])[..|data|] == data;
  }

  lemma WrapNext(x: nat)
    ensures Wrap32(Wrap32(x) as int + 1) == Wrap32(x + 1)
  {
  }

  // ---- pixels ----

  type Row = y: nat | y < HEIGHT
  type Dot = x: nat | x < WIDTH

  /** A byte shifted right i times. */
  function Shifted(v: bv8, i: nat): bv8 {
    if i == 0 then v else Shifted(v, i - 1) >> 1
  }

  /** The horizontal position of bit i of a page's column bytes: pages run right to left from page
      10, wrapping, and bits right to left within a page. */
  function DotOf(page: Page, i: nat): Dot
    requires i < 8
  {
    127 - (page + 6) % 16 * 8 - i
  }

  function PageOf(x: Dot): Page { ((127 - x) / 8 + 10) % 16 }

  function BitOf(x: Dot): nat { (127 - x) % 8 }

  /** Every dot is written once: (page, bit) and x determine each other. */
  lemma DotsCoverTheRow(x: Dot, page: Page, i: nat)
    requires i < 8
    ensures BitOf(x) < 8 && DotOf(PageOf(x), BitOf(x)) == x
    ensures PageOf(DotOf(page, i)) == page && BitOf(DotOf(page, i)) == i
  {
    hide DotOf;
    PagesRotate((127 - x) / 8);
    DotMeans(PageOf(x), BitOf(x));
    PagesRotate(page);
    DotMeans(page, i);
  }

  lemma DotMeans(page: Page, i: nat)
    requires i < 8
    ensures (127 - DotOf(page, i)) / 8 == (page + 6) % 16 && (127 - DotOf(page, i)) % 8 == i
  {
    var t := (page + 6) % 16;
    DivisionUnique(t * 8 + i, 8, t, i);
  }

  lemma PagesRotate(a: nat)
    requires a < 16
    ensures ((a + 10) % 16 + 6) % 16 == a && ((a + 6) % 16 + 10) % 16 == a
  {
  }

  /** The two-bit grey level at (y, x): one bit from each of the two bytes of row y's column pair. */
  function PixelAt(l: Lcd, y: Row, x: Dot): nat
    requires l.Valid()
  {
    Grey(l.vram[PageOf(x)][2 * y], l.vram[PageOf(x)][2 * y + 1], BitOf(x))
  }

  function Grey(c1: bv8, c2: bv8, i: nat): nat
    requires i < 8
  {
    (if Shifted(c1, i) & 1 != 0 then 2 else 0) + (if Shifted(c2, i) & 1 != 0 then 1 else 0)
  }

  /** The byte of weight 2^i. */
  function Mask(i: nat): bv8
    requires i < 8
  {
    match i
    case 0 => 0x01
    case 1 => 0x02
    case 2 => 0x04
    case 3 => 0x08
    case 4 => 0x10
    case 5 => 0x20
    case 6 => 0x40
    case _ => 0x80
  }

  lemma ShiftedBit(v: bv8, i: nat)
    requires i < 8
    ensures Shifted(v, i) & 1 != 0 <==> v & Mask(i) != 0
  {
    assert Shifted(v, 1) == v >> 1;
    assert Shifted(v, 2) == v >> 1 >> 1;
    assert Shifted(v, 3) == v >> 1 >> 1 >> 1;
    assert Shifted(v, 4) == v >> 1 >> 1 >> 1 >> 1;
    assert Shifted(v, 5) == v >> 1 >> 1 >> 1 >> 1 >> 1;
    assert Shifted(v, 6) == v >> 1 >> 1 >> 1 >> 1 >> 1 >> 1;
    assert Shifted(v, 7) == v >> 1 >> 1 >> 1 >> 1 >> 1 >> 1 >> 1;
  }

  /** In a pixel the bit of the even column weighs 2 and that of the odd column 1. */
  lemma PixelMeans(l: Lcd, y: Row, x: Dot)
    requires l.Valid()
    ensures
      var even, odd, mask := l.vram[PageOf(x)][2 * y], l.vram[PageOf(x)][2 * y + 1], Mask((127 - x) % 8);
      PixelAt(l, y, x) == (if even & mask != 0 then 2 else 0) + (if odd & mask != 0 then 1 else 0)
  {
    ShiftedBit(l.vram[PageOf(x)][2 * y], BitOf(x));
    ShiftedBit(l.vram[PageOf(x)][2 * y + 1], BitOf(x));
    hide Shifted, Mask, PageOf, Lcd.Valid;
  }

  /** The pages from right to left: 10 to 15, then 0 to 9, and bit 0 of each rightmost. */
  lemma PagePositions(page: Page, i: nat)
    requires i < 8
    ensures DotOf(page, i) == (if page >= 10 then 127 - 8 * (page - 10) else 79 - 8 * page) - i
  {
  }

  lemma DotsDistinct(page: Page)
    ensures forall i: nat | i < 8 :: PageOf(DotOf(page, i)) == page && BitOf(DotOf(page, i)) == i
  {
    forall i: nat | i < 8
      ensures PageOf(DotOf(page, i)) == page && BitOf(DotOf(page, i)) == i
    {
      DotsCoverTheRow(0, page, i);
    }
  }

  /** The eight dots of row y that come from `page` are converted. */
  ghost predicate CellDone(out: array2<nat>, l: Lcd, page: Page, y: Row)
    requires l.Valid() && out.Length0 == HEIGHT && out.Length1 == WIDTH
    reads out
  {
    forall x: Dot | PageOf(x) == page :: out[y, x] == PixelAt(l, y, x)
  }

  /** The innermost loop: eight dots of one row of one page; all others are left alone. */
  method ConvertCell(out: array2<nat>, ghost l: Lcd, page: Page, y: Row, b1: bv8, b2: bv8)
    requires l.Valid() && out.Length0 == HEIGHT && out.Length1 == WIDTH
    requires b1 == l.vram[page][2 * y] && b2 == l.vram[page][2 * y + 1]
    modifies out
    ensures CellDone(out, l, page, y)
    ensures forall v: Row, x: Dot | v != y || PageOf(x) != page :: out[v, x] == old(out[v, x])
  {
    hide DotOf, PageOf, BitOf, Lcd.Valid;
    DotsDistinct(page);
    var c1, c2, i := b1, b2, 0;
    while i < 8
      invariant i <= 8 && c1 == Shifted(b1, i) && c2 == Shifted(b2, i)
      invariant forall k: nat | k < i :: out[y, DotOf(page, k)] == Grey(b1, b2, k)
      invariant forall v: Row, x: Dot | v != y || PageOf(x) != page :: out[v, x] == old(out[v, x])
    {
      out[y, DotOf(page, i)] := (if c1 & 1 != 0 then 2 else 0) + (if c2 & 1 != 0 then 1 else 0);
      c1, c2, i := c1 >> 1, c2 >> 1, i + 1;
    }
    forall x: Dot | PageOf(x) == page
      ensures out[y, x] == PixelAt(l, y, x)
    {
      DotsCoverTheRow(x, page, 0);
    }
  }

  /** to_pixels: every one of the 88 x 128 pixels is given by one formula over video memory. */
  method ToPixels(lcd: S6b0741, out: array2<nat>)
    requires lcd.Valid() && out.Length0 == HEIGHT && out.Length1 == WIDTH && lcd.View().Valid()
    modifies out
    ensures old(lcd.View()).Valid()
    ensures forall y: Row, x: Dot :: out[y, x] == PixelAt(old(lcd.View()), y, x)
  {
    hide PageOf, PixelAt;
    ghost var l := lcd.View();
    var page: nat := 0;
    while page < PAGES
      invariant page <= PAGES && lcd.View() == l
      invariant forall p: Page, y: Row | p < page :: CellDone(out, l, p, y)
    {
      ConvertPage(lcd, out, page);
      page := page + 1;
    }
    forall y: Row, x: Dot
      ensures out[y, x] == PixelAt(l, y, x)
    {
      assert CellDone(out, l, PageOf(x), y);
    }
  }

  method ConvertPage(lcd: S6b0741, out: array2<nat>, page: Page)
    requires lcd.Valid() && out.Length0 == HEIGHT && out.Length1 == WIDTH && lcd.View().Valid()
    modifies out
    ensures lcd.View() == old(lcd.View())
    ensures forall y: Row :: CellDone(out, lcd.View(), page, y)
    ensures forall v: Row, x: Dot | PageOf(x) != page :: out[v, x] == old(out[v, x])
  {
    hide PageOf, PixelAt;
    ghost var l := lcd.View();
    var y: nat := 0;
    while y < HEIGHT
      invariant y <= HEIGHT && lcd.View() == l
      invariant forall v: Row | v < y :: CellDone(out, l, page, v)
      invariant forall v: Row, x: Dot | PageOf(x) != page :: out[v, x] == old(out[v, x])
    {
      assert l.vram[page] == lcd.Row(page);
      label Before:
      ConvertCell(out, l, page, y, lcd.vram[page, 2 * y], lcd.vram[page, 2 * y + 1]);
      forall v: Row | v < y
        ensures CellDone(out, l, page, v)
      {
        assert old@Before(CellDone(out, l, page, v));
        forall x: Dot | PageOf(x) == page
          ensures out[v, x] == PixelAt(l, v, x)
        {
          assert out[v, x] == old@Before(out[v, x]);
        }
      }
      y := y + 1;
    }
  }
}
