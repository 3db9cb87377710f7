/** Properties that relate several calls of the accessors. */
module Properties {
  import opened Types
  import opened State
  import opened Decoder
  import opened Memory

  /** Addresses that give back what was written to them: the RAM regions,
      the usable sprite table and the interrupt registers. */
  predicate Retains(a: Addr) {
    (0x8000 <= a < 0xFEA0) || a == 0xFF0F || 0xFF80 <= a
  }

  /** After a reset and a program load, the boot overlay answers the first
      256 addresses, the program image the rest of 0x0000-0x7FFF, and all
      unit-owned RAM reads 0. */
  lemma ResetThenLoad(m: Mmu, gpu: GpuRead, rom: seq<Byte>, a: Addr)
    requires Sized(m) && |rom| >= MinRomSize
    ensures Valid(LoadRom(Reset(m), rom))
    ensures a < 0x100 ==> ReadByte(LoadRom(Reset(m), rom), gpu, a) == m.bios[a]
    ensures 0x100 <= a < 0x8000 ==> ReadByte(LoadRom(Reset(m), rom), gpu, a) == rom[a]
    ensures (0xA000 <= a < 0xFE00 || 0xFF80 <= a < 0xFFFF) ==>
      ReadByte(LoadRom(Reset(m), rom), gpu, a) == 0
  {
  }

  /** Loading a program image replaces the previous one; nothing of it is kept. */
  lemma LoadRomReplaces(m: Mmu, first: seq<Byte>, second: seq<Byte>)
    ensures LoadRom(LoadRom(m, first), second) == LoadRom(m, second)
  {
  }

  /** A write to the program-image window changes no read anywhere. */
  lemma RomWriteInvisible(m: Mmu, gpu: GpuRead, a: Addr, v: Byte, b: Addr)
    requires Valid(m) && a < 0x8000
    ensures WriteByte(m, gpu, a, v).events == []
    ensures ReadByte(WriteByte(m, gpu, a, v).mmu, gpu, b) == ReadByte(m, gpu, b)
  {
  }

  /** The unusable sprite tail reads 0 in every state and discards writes. */
  lemma OamTailInert(m: Mmu, gpu: GpuRead, a: Addr, v: Byte)
    requires Valid(m) && 0xFEA0 <= a < 0xFF00
    ensures ReadByte(m, gpu, a) == 0
    ensures WriteByte(m, gpu, a, v) == Effect(m, [])
  {
  }

  /** A retaining address reads back the byte just written to it. */
  lemma ReadAfterWrite(m: Mmu, gpu: GpuRead, a: Addr, v: Byte)
    requires Valid(m) && Retains(a)
    ensures ReadByte(WriteByte(m, gpu, a, v).mmu, gpu, a) == v
  {
  }

  /** Work RAM and its mirror are one store: a write through either window
      is read back through the other. */
  lemma MirrorAlias(m: Mmu, gpu: GpuRead, a: Addr, v: Byte)
    requires Valid(m) && 0xC000 <= a < 0xDE00
    ensures ReadByte(WriteByte(m, gpu, a, v).mmu, gpu, a + 0x2000) == v
    ensures ReadByte(WriteByte(m, gpu, a + 0x2000, v).mmu, gpu, a) == v
    ensures WriteByte(m, gpu, a, v) == WriteByte(m, gpu, a + 0x2000, v)
  {
  }

  /** Among retaining addresses, two name the same cell exactly when they
      are equal or one is the other's work RAM mirror. */
  lemma SameCellIffMirror(a: Addr, b: Addr, inBios: bool)
    requires Retains(a) && Retains(b)
    ensures SameCell(a, b, inBios) <==>
      || a == b
      || (0xC000 <= a < 0xDE00 && b == a + 0x2000)
      || (0xC000 <= b < 0xDE00 && a == b + 0x2000)
  {
  }

  /** Apart from the DMA trigger, a write changes the read of no address
      outside the cell it decodes to. */
  lemma WriteFrame(m: Mmu, gpu: GpuRead, a: Addr, v: Byte, b: Addr)
    requires Valid(m) && a != 0xFF46
    requires !SameCell(a, b, m.isInBios)
    ensures ReadByte(WriteByte(m, gpu, a, v).mmu, gpu, b) == ReadByte(m, gpu, b)
  {
  }

  /** A DMA transfer from a page of work RAM or its mirror copies 160
      consecutive work RAM bytes, starting at that page's offset in the
      store, into the sprite table. */
  lemma DmaFromWorkRam(m: Mmu, gpu: GpuRead, v: Byte)
    requires Valid(m) && 0xC0 <= v <= 0xFD
    ensures var off := if v < 0xE0 then v * 0x100 - 0xC000 else v * 0x100 - 0xE000;
      forall i :: 0 <= i < OamSize ==>
        WriteByte(m, gpu, 0xFF46, v).mmu.oam[i] == m.workingRam[off + i]
  {
    var off := if v < 0xE0 then v * 0x100 - 0xC000 else v * 0x100 - 0xE000;
    forall i | 0 <= i < OamSize
      ensures WriteByte(m, gpu, 0xFF46, v).mmu.oam[i] == m.workingRam[off + i]
    {
      assert WriteByte(m, gpu, 0xFF46, v).mmu.oam[i] == ReadByte(m, gpu, v * 0x100 + i);
      DmaByteFromWorkRam(m, gpu, v, i);
    }
  }

  lemma DmaByteFromWorkRam(m: Mmu, gpu: GpuRead, v: Byte, i: nat)
    requires Valid(m) && 0xC0 <= v <= 0xFD && i < OamSize
    ensures var off := if v < 0xE0 then v * 0x100 - 0xC000 else v * 0x100 - 0xE000;
      ReadByte(m, gpu, v * 0x100 + i) == m.workingRam[off + i]
  {
  }

  /** A DMA transfer from the sprite table's own page leaves it unchanged. */
  lemma DmaFromOamIdentity(m: Mmu, gpu: GpuRead)
    requires Valid(m)
    ensures WriteByte(m, gpu, 0xFF46, 0xFE).mmu == m
  {
  }

  /** The sprite hook sees the 160 destination addresses in ascending order. */
  lemma DmaEventsAscending(m: Mmu, gpu: GpuRead, v: Byte)
    requires Valid(m)
    ensures var e := WriteByte(m, gpu, 0xFF46, v).events;
      && |e| == OamSize
      && (forall i :: 0 <= i < |e| ==> e[i].UpdateSprite? && e[i].addr == 0xFE00 + i)
      && (forall i, j :: 0 <= i < j < |e| ==> e[i].addr < e[j].addr)
  {
  }

  lemma WordSplit(w: int)
    ensures (w / 0x100 % 0x100) * 0x100 + w % 0x100 == w % 0x1_0000
  {
  }

  /** A word written to two retaining addresses reads back as its low 16
      bits, low byte at `a` and high byte at `a + 1`. */
  lemma WordRoundTrip(m: Mmu, gpu: GpuRead, a: Addr, w: int)
    requires Valid(m) && a < 0xFFFF
    requires Retains(a) && Retains(a + 1)
    ensures ReadByte(WriteWord(m, gpu, a, w).mmu, gpu, a) == w % 0x100
    ensures ReadByte(WriteWord(m, gpu, a, w).mmu, gpu, a + 1) == w / 0x100 % 0x100
    ensures ReadWord(WriteWord(m, gpu, a, w).mmu, gpu, a) == w % 0x1_0000
  {
    var low := WriteByte(m, gpu, a, w % 0x100);
    ReadAfterWrite(m, gpu, a, w % 0x100);
    ReadAfterWrite(low.mmu, gpu, a + 1, w / 0x100 % 0x100);
    SameCellIffMirror(a + 1, a, m.isInBios);
    WriteFrame(low.mmu, gpu, a + 1, w / 0x100 % 0x100, a);
    WordSplit(w);
  }

  /** A word write straddling 0x7FFF/0x8000: the low byte is ignored by the
      program image, the high byte lands in tile data and calls the tile hook. */
  lemma WordStraddlesRomAndVideoRam(m: Mmu, gpu: GpuRead, w: int)
    requires Valid(m)
    ensures WriteWord(m, gpu, 0x7FFF, w).mmu == m.(videoRam := m.videoRam[0 := w / 0x100 % 0x100])
    ensures WriteWord(m, gpu, 0x7FFF, w).events == [UpdateTile(0x8000, w / 0x100 % 0x100)]
  {
  }

  /** A run of byte writes as the execution engine issues them, one after
      the other, with the events of all of them in order. */
  function WriteAll(m: Mmu, gpu: GpuRead, writes: seq<(Addr, Byte)>): (r: Effect)
    requires Valid(m)
    ensures Valid(r.mmu)
    decreases |writes|
  {
    if writes == [] then Effect(m, [])
    else
      var first := WriteByte(m, gpu, writes[0].0, writes[0].1);
      var rest := WriteAll(first.mmu, gpu, writes[1..]);
      Effect(rest.mmu, first.events + rest.events)
  }

  /** No write, at any address, clears the boot-overlay flag or changes the
      boot program or the program image: only a reset or a load does. */
  lemma {:induction false} WritesKeepBootAndRom(m: Mmu, gpu: GpuRead, writes: seq<(Addr, Byte)>)
    requires Valid(m)
    ensures WriteAll(m, gpu, writes).mmu.isInBios == m.isInBios
    ensures WriteAll(m, gpu, writes).mmu.bios == m.bios
    ensures WriteAll(m, gpu, writes).mmu.rom == m.rom
    decreases |writes|
  {
    if writes != [] {
      var first := WriteByte(m, gpu, writes[0].0, writes[0].1);
      WritesKeepBootAndRom(first.mmu, gpu, writes[1..]);
    }
  }

  /** Any run of writes to the program-image window leaves the state as it
      was and emits no event. */
  lemma {:induction false} RomWritesAreNoOps(m: Mmu, gpu: GpuRead, writes: seq<(Addr, Byte)>)
    requires Valid(m)
    requires forall k :: 0 <= k < |writes| ==> writes[k].0 < 0x8000
    ensures WriteAll(m, gpu, writes) == Effect(m, [])
    decreases |writes|
  {
    if writes != [] {
      RomWritesAreNoOps(m, gpu, writes[1..]);
    }
  }

  /** A word write changes no read of an address whose cell differs from
      the cells of both its bytes, unless one of them is the DMA trigger. */
  lemma WordFrame(m: Mmu, gpu: GpuRead, a: Addr, w: int, b: Addr)
    requires Valid(m) && a < 0xFFFF
    requires a != 0xFF46 && a + 1 != 0xFF46
    requires !SameCell(a, b, m.isInBios) && !SameCell(a + 1, b, m.isInBios)
    ensures ReadByte(WriteWord(m, gpu, a, w).mmu, gpu, b) == ReadByte(m, gpu, b)
  {
    var low := WriteByte(m, gpu, a, w % 0x100);
    WriteFrame(m, gpu, a, w % 0x100, b);
    WriteFrame(low.mmu, gpu, a + 1, w / 0x100 % 0x100, b);
  }

  /** Stores that take a write without calling any hook: cartridge RAM, work
      RAM and its mirror, IF, high RAM and IE. */
  predicate Silent(a: Addr) {
    (0xA000 <= a < 0xFE00) || a == 0xFF0F || 0xFF80 <= a
  }

  /** A word write whose two bytes both land in silent stores emits no
      events; one whose bytes both land in tile data emits exactly the two
      tile events, low byte first. */
  lemma WordEvents(m: Mmu, gpu: GpuRead, a: Addr, w: int)
    requires Valid(m) && a < 0xFFFF
    ensures Silent(a) && Silent(a + 1) ==> WriteWord(m, gpu, a, w).events == []
    ensures 0x8000 <= a && a + 1 < 0x9800 ==>
      WriteWord(m, gpu, a, w).events
        == [UpdateTile(a, w % 0x100), UpdateTile(a + 1, w / 0x100 % 0x100)]
  {
  }

  /** A word write at the top of the address space sets IE to the low byte
      and discards the high byte, whose address 0x10000 decodes as program
      image. */
  lemma WordAtTop(m: Mmu, gpu: GpuRead, w: int)
    requires Valid(m)
    ensures ReadByte(WriteWord(m, gpu, 0xFFFF, w).mmu, gpu, 0xFFFF) == w % 0x100
    ensures WriteWord(m, gpu, 0xFFFF, w).mmu == m.(ie := w % 0x100)
    ensures WriteWord(m, gpu, 0xFFFF, w).events == []
  {
  }
}
