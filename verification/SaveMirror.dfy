/** The SAVE_RAM buffer of the libretro core: a PFI header followed by a copy of flash that is
    brought up to date sector by sector after every frame (piece_libretro.cpp). */
module SaveMirror {
  import opened Words
  import opened Flash
  import BusModel

  const PFI_HEADER_BYTES := 40

  /** The part of the core's global state the save path touches. */
  datatype Save = Save(chip: Device, buffer: seq<uint8>, headerBytes: nat, flashBytes: nat, overlayPending: bool)
  {
    predicate Valid() {
      && chip.Valid() && flashBytes <= |chip.mem|
      && PFI_HEADER_BYTES <= |buffer| && |buffer| == headerBytes + flashBytes
    }

    /** The flash area equals device memory byte for byte. */
    predicate Mirrors()
      requires Valid()
    {
      buffer[headerBytes..] == chip.mem[..flashBytes]
    }

    predicate NoneDirty() {
      forall i | 0 <= i < |chip.dirty| :: !chip.dirty[i]
    }

    /** The buffer still starts with a PFI signature and a SYSTEMINFO of the right size. */
    predicate HeaderAccepted()
      requires Valid()
    {
      buffer[1] == 0x49 && buffer[2] == 0x46 && buffer[3] == 0x50 && buffer[8] + 0x100 * buffer[9] as int == 32
    }

    predicate OverlayAccepted()
      requires Valid()
    {
      overlayPending && HeaderAccepted()
    }

    predicate SameShape(s: Save) {
      s.headerBytes == headerBytes && s.flashBytes == flashBytes
    }

    /** First-frame overlay: an accepted header makes the buffer the flash image. */
    function Overlay(): (s: Save)
      requires Valid()
      ensures s.Valid() && SameShape(s)
    {
      this.(overlayPending := false,
            chip := if OverlayAccepted() then LoadImage(chip, 0, buffer[headerBytes..]) else chip)
    }

    function RunFrame(ws: seq<Cycle>): (s: Save)
      requires Valid()
      ensures s.Valid() && SameShape(s)
    {
      this.(chip := Run(chip, ws))
    }

    /** The incremental copy: dirty sectors, cut off at the end of the saved area. */
    function Sync(): (s: Save)
      requires Valid()
      ensures s.Valid() && SameShape(s)
    {
      this.(buffer := buffer[..headerBytes] + seq(flashBytes, k requires 0 <= k < flashBytes =>
                        SectorInRange(chip, k);
                        if chip.dirty[SectorOf(k)] then chip.mem[k] else buffer[headerBytes + k]),
            chip := ClearDirty(chip))
    }

    /** One retro_run, as far as flash and SAVE_RAM go. */
    function Frame(ws: seq<Cycle>): (s: Save)
      requires Valid()
      ensures s.Valid() && SameShape(s)
    {
      Overlay().RunFrame(ws).Sync()
    }
  }

  lemma SectorInRange(d: Device, k: nat)
    requires d.Valid() && k < |d.mem|
    ensures SectorOf(k) < |d.dirty|
  {
  }

  // ---- loading a game ----

  /** The fields of the PFI header, little-endian: image offset, size of SYSTEMINFO, end of flash. */
  predicate HasHeader(data: seq<uint8>) {
    PFI_HEADER_BYTES <= |data| && data[1] == 0x49 && data[2] == 0x46 && data[3] == 0x50
    && ImageOffset(data) >= PFI_HEADER_BYTES && BusModel.Load16(data, 8) == 32
  }

  function ImageOffset(data: seq<uint8>): uint32
    requires PFI_HEADER_BYTES <= |data|
  {
    BusModel.Load32(data, 4)
  }

  /** The flash size the header declares; not positive when pffs_end is not above the flash base. */
  function DeclaredFlash(data: seq<uint8>): int
    requires PFI_HEADER_BYTES <= |data|
  {
    BusModel.Load32(data, 36) - BusModel.FLASH_BASE
  }

  /** How much of the image the loader copies. */
  function ImageBytes(data: seq<uint8>): int
    requires PFI_HEADER_BYTES <= |data|
  {
    if DeclaredFlash(data) <= |data| - ImageOffset(data) then DeclaredFlash(data) else |data| - ImageOffset(data)
  }

  /** What retro_load_game comes to.  ReadsPastChip: the copy that fills the buffer runs over the end
      of the chip's memory. */
  datatype LoadResult = Refused | ReadsPastChip | Loaded(save: Save)

  /** The header is good, there is an image, and it fits the chip chosen for the declared size. */
  predicate Loadable(data: seq<uint8>) {
    && HasHeader(data) && DeclaredFlash(data) > 0 && ImageBytes(data) > 0
    && ImageBytes(data) <= |ForMinBytes(DeclaredFlash(data)).mem|
  }

  function LoadGame(data: seq<uint8>): (r: LoadResult)
    ensures r.Loaded? ==> r.save.Valid()
  {
    if !Loadable(data) then Refused
    else
      var off, flashBytes := ImageOffset(data), DeclaredFlash(data);
      var chip := LoadImage(ForMinBytes(flashBytes), 0, data[off..off + ImageBytes(data)]);
      if |chip.mem| < flashBytes then ReadsPastChip
      else Loaded(Save(chip, data[..off] + chip.mem[..flashBytes], off, flashBytes, true))
  }

  /** A game that gets as far as the chip is loaded, with the mirror equal to flash, if and only if
      the declared flash is no larger than the larger part; otherwise the mirror copy overruns. */
  lemma LoadGameIff(data: seq<uint8>)
    requires Loadable(data)
    ensures LoadGame(data).Loaded? <==> DeclaredFlash(data) <= LARGE_PART
    ensures LoadGame(data).Loaded? ==> LoadGame(data).save.Mirrors() && LoadGame(data).save.NoneDirty()
    ensures !LoadGame(data).Loaded? ==> LoadGame(data) == ReadsPastChip
  {
    var off, flashBytes := ImageOffset(data), DeclaredFlash(data);
    var chip := LoadImage(ForMinBytes(flashBytes), 0, data[off..off + ImageBytes(data)]);
    assert |chip.mem| == if flashBytes <= SMALL_PART then SMALL_PART else LARGE_PART;
    hide Loadable, ForMinBytes, LoadImage, ImageOffset, DeclaredFlash, ImageBytes, PowerOfTwo;
    if flashBytes <= |chip.mem| {
      assert (data[..off] + chip.mem[..flashBytes])[off..] == chip.mem[..flashBytes];
    }
  }

  /** Flash holds the file's image from its start on and is blank after it, and the buffer starts
      with the file's own header. */
  lemma LoadedHoldsImage(data: seq<uint8>, k: nat)
    requires LoadGame(data).Loaded? && k < |LoadGame(data).save.chip.mem|
    ensures HasHeader(data) && 0 < ImageBytes(data) <= |LoadGame(data).save.chip.mem|
    ensures ImageOffset(data) + ImageBytes(data) <= |data|
    ensures LoadGame(data).save.chip.mem[k] == if k < ImageBytes(data) then data[ImageOffset(data) + k] else 0xFF
    ensures LoadGame(data).save.buffer[..ImageOffset(data)] == data[..ImageOffset(data)]
    ensures LoadGame(data).save.overlayPending && LoadGame(data).save.headerBytes == ImageOffset(data)
  {
    hide PowerOfTwo, BusModel.Load16, BusModel.Load32;
  }

  /** A declared size up to that of the larger part always fits its chip. */
  lemma SmallGamesLoad(data: seq<uint8>)
    requires HasHeader(data) && 0 < DeclaredFlash(data) <= LARGE_PART && ImageOffset(data) < |data|
    ensures LoadGame(data).Loaded?
  {
  }

  /** A header that declares 4 MB, followed by one byte of image. */
  function ShortImage(): seq<uint8> {
    [0x31, 0x49, 0x46, 0x50, 40, 0, 0, 0, 32, 0] + seq(29, _ => 0) + [1, 0xFF]
  }

  lemma ShortImageOverruns()
    ensures LoadGame(ShortImage()) == ReadsPastChip
  {
    var data := ShortImage();
    assert BusModel.Load32(data, 4) == 40 && BusModel.Load16(data, 8) == 32;
    assert BusModel.Load32(data, 36) == 0x100_0000;
    LoadGameIff(data);
  }

  /** Byte k of the flash area after a frame. */
  lemma SyncedByte(s: Save, ws: seq<Cycle>, k: nat)
    requires s.Valid() && k < s.flashBytes
    ensures SectorOf(k) < |s.chip.dirty|
    ensures
      var u := s.Overlay().RunFrame(ws);
      var f := s.Frame(ws);
      && f.chip.mem == u.chip.mem
      && f.buffer[f.headerBytes..][k] == (if u.chip.dirty[SectorOf(k)] then u.chip.mem[k] else s.buffer[s.headerBytes + k])
      && (!u.chip.dirty[SectorOf(k)] ==> u.chip.mem[k] == s.Overlay().chip.mem[k])
      && s.Overlay().chip.mem[k] == (if s.OverlayAccepted() then s.buffer[s.headerBytes + k] else s.chip.mem[k])
  {
    SectorInRange(s.chip, k);
    OverlaidByte(s, k);
    RunMarks(s.Overlay().chip, ws);
    assert |s.Overlay().RunFrame(ws).chip.dirty| == |s.chip.dirty|;
    hide Save.Overlay, Save.Sync, Run, SectorOf, Device.Valid;
    CopiedByte(s.Overlay().RunFrame(ws), k);
  }

  lemma OverlaidByte(s: Save, k: nat)
    requires s.Valid() && k < s.flashBytes
    ensures s.Overlay().buffer == s.buffer && |s.Overlay().chip.dirty| == |s.chip.dirty|
    ensures s.Overlay().chip.mem[k] == if s.OverlayAccepted() then s.buffer[s.headerBytes + k] else s.chip.mem[k]
  {
    hide PowerOfTwo, Save.OverlayAccepted;
  }

  lemma CopiedByte(u: Save, k: nat)
    requires u.Valid() && k < u.flashBytes
    ensures SectorOf(k) < |u.chip.dirty| && u.Sync().chip.mem == u.chip.mem
    ensures u.Sync().buffer[u.headerBytes..][k]
         == if u.chip.dirty[SectorOf(k)] then u.chip.mem[k] else u.buffer[u.headerBytes + k]
  {
    SectorInRange(u.chip, k);
    hide PowerOfTwo;
  }

  /** After a frame SAVE_RAM equals flash exactly when the overlay was accepted or the buffer
      already agreed with flash on every byte whose sector the frame left clean. */
  lemma FrameMirrorsIff(s: Save, ws: seq<Cycle>)
    requires s.Valid()
    ensures
      s.Frame(ws).Mirrors()
      <==> (s.OverlayAccepted()
            || forall k | 0 <= k < s.flashBytes :: CleanAfter(s, ws, k) ==> s.buffer[s.headerBytes + k] == s.chip.mem[k])
  {
    var f := s.Frame(ws);
    hide Save.Frame, Save.Overlay, Save.HeaderAccepted, Run;
    forall k | 0 <= k < s.flashBytes
      ensures f.buffer[f.headerBytes..][k] == f.chip.mem[k]
         <==> (s.OverlayAccepted() || !CleanAfter(s, ws, k) || s.buffer[s.headerBytes + k] == s.chip.mem[k])
    {
      SyncedByte(s, ws, k);
    }
    assert f.flashBytes == s.flashBytes && f.headerBytes == s.headerBytes;
    assert f.Mirrors() <==> forall k | 0 <= k < s.flashBytes :: f.buffer[f.headerBytes..][k] == f.chip.mem[k];
  }

  /** The sector of byte k is still clean when the frame syncs. */
  predicate CleanAfter(s: Save, ws: seq<Cycle>, k: nat)
    requires s.Valid() && k < s.flashBytes
  {
    SectorInRange(s.chip, k);
    !s.Overlay().RunFrame(ws).chip.dirty[SectorOf(k)]
  }

  /** Decided before the frame: whatever it will write to flash, SAVE_RAM equals flash after it if
      and only if the overlay is accepted or every byte of the buffer agrees with flash or lies in a
      sector that is dirty already. */
  lemma AnyFrameMirrorsIff(s: Save)
    requires s.Valid()
    ensures
      (forall ws: seq<Cycle> :: s.Frame(ws).Mirrors())
      <==> (s.OverlayAccepted() || forall k | 0 <= k < s.flashBytes :: DirtyAlready(s, k) || Agrees(s, k))
  {
    hide Save.Frame, Save.Mirrors, Save.OverlayAccepted, CleanAfter, DirtyAlready;
    FrameMirrorsIff(s, []);
    forall k | 0 <= k < s.flashBytes
      ensures CleanAfter(s, [], k) <==> !DirtyAlready(s, k)
    {
      CleanAfterNothing(s, k);
    }
    if s.OverlayAccepted() || forall k | 0 <= k < s.flashBytes :: DirtyAlready(s, k) || Agrees(s, k) {
      forall ws: seq<Cycle>
        ensures s.Frame(ws).Mirrors()
      {
        FrameMirrorsIff(s, ws);
        forall k | 0 <= k < s.flashBytes && DirtyAlready(s, k)
          ensures !CleanAfter(s, ws, k)
        {
          DirtyStays(s, ws, k);
        }
      }
    }
  }

  predicate Agrees(s: Save, k: nat)
    requires s.Valid() && k < s.flashBytes
  {
    s.buffer[s.headerBytes + k] == s.chip.mem[k]
  }

  predicate DirtyAlready(s: Save, k: nat)
    requires s.Valid() && k < s.flashBytes
  {
    SectorInRange(s.chip, k);
    s.chip.dirty[SectorOf(k)]
  }

  lemma CleanAfterNothing(s: Save, k: nat)
    requires s.Valid() && k < s.flashBytes
    ensures CleanAfter(s, [], k) <==> !DirtyAlready(s, k)
  {
  }

  lemma DirtyStays(s: Save, ws: seq<Cycle>, k: nat)
    requires s.Valid() && k < s.flashBytes && DirtyAlready(s, k)
    ensures !CleanAfter(s, ws, k)
  {
    RunKeepsDirty(s.Overlay().chip, ws);
    hide Run;
  }

  /** Any number of frames. */
  function Frames(s: Save, runs: seq<seq<Cycle>>): (s': Save)
    requires s.Valid()
    ensures s'.Valid() && s.SameShape(s')
  {
    if runs == [] then s else Frames(s, runs[..|runs| - 1]).Frame(runs[|runs| - 1])
  }

  lemma SyncCleans(s: Save, ws: seq<Cycle>)
    requires s.Valid()
    ensures s.Frame(ws).NoneDirty() && !s.Frame(ws).overlayPending
  {
  }

  /** From a loaded game whose .srm the frontend left alone or replaced by an accepted one, SAVE_RAM
      equals flash after every frame of every run, whatever the program writes to flash. */
  lemma {:induction false} EveryFrameMirrors(s: Save, runs: seq<seq<Cycle>>)
    requires s.Valid() && runs != [] && (s.Mirrors() || s.OverlayAccepted())
    ensures Frames(s, runs).Mirrors()
  {
    var n := |runs| - 1;
    var before := Frames(s, runs[..n]);
    if n > 0 {
      EveryFrameMirrors(s, runs[..n]);
    } else {
      assert before == s;
    }
    hide Save.Frame, Save.OverlayAccepted, Save.Mirrors;
    FrameKeepsMirror(before, runs[n]);
  }

  lemma FrameKeepsMirror(s: Save, ws: seq<Cycle>)
    requires s.Valid() && (s.Mirrors() || s.OverlayAccepted())
    ensures s.Frame(ws).Mirrors()
  {
    FrameMirrorsIff(s, ws);
    hide Save.Frame, CleanAfter, Save.OverlayAccepted;
    if s.Mirrors() {
      forall k | 0 <= k < s.flashBytes
        ensures s.buffer[s.headerBytes + k] == s.chip.mem[k]
      {
        assert s.buffer[s.headerBytes..][k] == s.chip.mem[..s.flashBytes][k];
      }
    }
  }

  /** No frame touches the header in front of the flash area. */
  lemma {:induction false} HeaderStays(s: Save, runs: seq<seq<Cycle>>)
    requires s.Valid()
    ensures Frames(s, runs).buffer[..s.headerBytes] == s.buffer[..s.headerBytes]
  {
    if runs != [] {
      HeaderStays(s, runs[..|runs| - 1]);
      FrameKeepsHeader(Frames(s, runs[..|runs| - 1]), runs[|runs| - 1]);
      hide Save.Frame;
    }
  }

  lemma FrameKeepsHeader(s: Save, ws: seq<Cycle>)
    requires s.Valid()
    ensures s.Frame(ws).buffer[..s.headerBytes] == s.buffer[..s.headerBytes]
  {
    hide Run, PowerOfTwo, Save.HeaderAccepted;
  }

  /** The check on an overlay is that on a game file: the upper three bytes of the little-endian
      signature word spell PFI, and SYSTEMINFO has its 32 bytes. */
  lemma HeaderAcceptedIff(s: Save)
    requires s.Valid()
    ensures s.HeaderAccepted()
       <==> BusModel.Load32(s.buffer, 0) / 0x100 == 0x50_4649 && BusModel.Load16(s.buffer, 8) == 32
    ensures HasHeader(s.buffer) <==> s.HeaderAccepted() && 40 <= BusModel.Load32(s.buffer, 4)
  {
    SignatureBytes(s.buffer);
    hide BusModel.Load32, PowerOfTwo;
  }

  lemma SignatureBytes(data: seq<uint8>)
    requires 4 <= |data|
    ensures BusModel.Load32(data, 0) / 0x100 == 0x50_4649 <==> data[1] == 0x49 && data[2] == 0x46 && data[3] == 0x50
  {
    BusModel.LittleEndian(data, 0, 0);
    var w, high := BusModel.Load32(data, 0), data[1] as int + 0x100 * (data[2] as int) + 0x1_0000 * (data[3] as int);
    hide BusModel.Load32, BusModel.Load16;
    assert w == 0x100 * high + data[0];
    assert w / 0x100 == high;
  }

  /** A rejected overlay is not undone: one stale byte in a sector the frame leaves alone stays. */
  lemma RejectedOverlayLeavesStaleByte(s: Save, k: nat)
    requires s.Valid() && k < s.flashBytes && s.overlayPending && !s.HeaderAccepted() && s.NoneDirty()
    requires s.buffer[s.headerBytes + k] != s.chip.mem[k]
    ensures !s.Frame([]).Mirrors()
  {
    SectorInRange(s.chip, k);
    assert CleanAfter(s, [], k);
    FrameMirrorsIff(s, []);
  }

  // ---- the copy loop, in place ----

  class Core {
    const chip: Sst39vf
    const buffer: array<uint8>
    const headerBytes: nat
    const flashBytes: nat
    var overlayPending: bool

    constructor (chip: Sst39vf, header: seq<uint8>, flashBytes: nat)
      requires chip.Valid() && flashBytes <= chip.mem.Length && PFI_HEADER_BYTES <= |header|
      ensures this.chip == chip && fresh(buffer)
      ensures Valid() && View() == Save(chip.View(), header + chip.mem[..flashBytes], |header|, flashBytes, true)
    {
      this.chip, this.flashBytes, headerBytes, overlayPending := chip, flashBytes, |header|, true;
      var image := header + chip.mem[..flashBytes];
      buffer := new uint8[|image|](k requires 0 <= k < |image| => image[k]);
      new;
      assert buffer[..] == image;
    }

    /** retro_load_game, as far as flash and the buffer go.  `overrun` says that the copy into the
        buffer would read past the chip, where the C++ has no defined result. */
    static method RetroLoadGame(data: seq<uint8>) returns (core: Option<Core>, overrun: bool)
      ensures overrun <==> LoadGame(data).ReadsPastChip?
      ensures core.Some? <==> LoadGame(data).Loaded?
      ensures core.Some? ==> fresh(core.value) && core.value.Valid() && core.value.View() == LoadGame(data).save
    {
      hide PowerOfTwo, LoadImage, ImageOffset, DeclaredFlash, BusModel.Load16;
      if !Loadable(data) {
        return None, false;
      }
      var off, flashBytes := ImageOffset(data), DeclaredFlash(data);
      PartsArePowersOfTwo();
      var chip := new Sst39vf(if flashBytes <= SMALL_PART then SMALL_PART else LARGE_PART);
      assert chip.View() == ForMinBytes(flashBytes);
      var ok := chip.Load(0, data[off..off + ImageBytes(data)]);
      if chip.mem.Length < flashBytes {
        return None, true;
      }
      var c := new Core(chip, data[..off], flashBytes);
      return Some(c), false;
    }

    ghost predicate Valid()
      reads this, buffer, chip, chip.mem, chip.dirty
    {
      View().Valid() && buffer != chip.mem
    }

    ghost function View(): Save
      reads this, buffer, chip, chip.mem, chip.dirty
    {
      Save(chip.View(), buffer[..], headerBytes, flashBytes, overlayPending)
    }

    method ApplyOverlay()
      requires Valid()
      modifies this`overlayPending, chip.mem
      ensures Valid() && View() == old(View()).Overlay()
    {
      if overlayPending {
        overlayPending := false;
        var b9: int := buffer[9];
        if buffer[1] == 0x49 && buffer[2] == 0x46 && buffer[3] == 0x50 && buffer[8] + 0x100 * b9 == 32 {
          var ok := chip.Load(0, buffer[headerBytes..]);
        }
      }
    }

    method SyncFlash()
      requires Valid()
      modifies buffer, chip.dirty
      ensures Valid() && View() == old(View()).Sync()
    {
      ghost var s := View();
      var i := 0;
      while i < chip.dirty.Length
        invariant i <= chip.dirty.Length && Valid() && chip.View() == s.chip && overlayPending == s.overlayPending
        invariant buffer[..headerBytes] == s.buffer[..headerBytes]
        invariant forall k | 0 <= k < flashBytes ::
                    buffer[headerBytes + k] == if SectorOf(k) < i && chip.dirty[SectorOf(k)] then chip.mem[k]
                                               else s.buffer[headerBytes + k]
      {
        if chip.dirty[i] {
          CopySector(i);
        }
        i := i + 1;
      }
      forall k | 0 <= k < flashBytes
        ensures SectorOf(k) < chip.dirty.Length
      {
        SectorInRange(s.chip, k);
      }
      assert buffer[headerBytes..] == s.Sync().buffer[headerBytes..];
      assert buffer[..] == s.Sync().buffer;
      chip.Clear();
    }

    /** One memcpy of the visitor: a sector, cut off at the end of the saved area. */
    method CopySector(i: nat)
      requires Valid() && i < chip.dirty.Length
      modifies buffer
      ensures forall k | 0 <= k < buffer.Length ::
                buffer[k] == if headerBytes <= k && SectorOf(k - headerBytes) == i then chip.mem[k - headerBytes]
                             else old(buffer[k])
    {
      var off := i * SECTOR_SIZE;
      if off >= flashBytes {
        return;
      }
      var n := if SECTOR_SIZE <= flashBytes - off then SECTOR_SIZE else flashBytes - off;
      forall k | off <= k < off + n {
        buffer[headerBytes + k] := chip.mem[k];
      }
    }
  }
}
