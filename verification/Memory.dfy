/** The byte and word accessors, the peripheral bridge and the OAM DMA
    engine, all routed through the decoder. */
module Memory {
  import opened Types
  import opened State
  import opened Decoder

  /** The display controller's register read: its semantics are outside
      this unit, so it is an arbitrary function of the address. */
  type GpuRead = Addr -> Byte

  /** The state after a write, with the hook events the write emitted. */
  datatype Effect = Effect(mmu: Mmu, events: seq<Event>)

  /** The value a read of `a` returns. Reads of the unusable sprite tail and
      of undecoded I/O addresses return 0; a read of the DMA trigger falls
      into the display controller's block 0x40 like its neighbours. */
  function ReadByte(m: Mmu, gpu: GpuRead, a: Addr): (r: Byte)
    requires Valid(m)
    ensures a < 0x100 && m.isInBios ==> r == m.bios[a]
    ensures (a < 0x100 && !m.isInBios) || 0x100 <= a < 0x8000 ==> r == m.rom[a]
    ensures 0x8000 <= a < 0xA000 ==> r == m.videoRam[a - 0x8000]
    ensures 0xA000 <= a < 0xC000 ==> r == m.cartridgeRam[a - 0xA000]
    ensures 0xC000 <= a < 0xE000 ==> r == m.workingRam[a - 0xC000]
    ensures 0xE000 <= a < 0xFE00 ==> r == m.workingRam[a - 0xE000]
    ensures 0xFE00 <= a < 0xFEA0 ==> r == m.oam[a - 0xFE00]
    ensures 0xFEA0 <= a < 0xFF00 ==> r == 0
    ensures a == 0xFF00 ==> r == m.joypad
    ensures a == 0xFF0F ==> r == m.iflag
    ensures 0xFF01 <= a < 0xFF40 && a != 0xFF0F ==> r == 0
    ensures 0xFF40 <= a < 0xFF80 ==> r == gpu(a)
    ensures 0xFF80 <= a < 0xFFFF ==> r == m.zeroPageRam[a - 0xFF80]
    ensures a == 0xFFFF ==> r == m.ie
  {
    match Decode(a, m.isInBios)
    case BootRom(i) => m.bios[i]
    case CartRom(i) => m.rom[i]
    case VideoRam(i) => m.videoRam[i]
    case CartRam(i) => m.cartridgeRam[i]
    case WorkRam(i) => m.workingRam[i]
    case Oam(i) => m.oam[i]
    case OamTail => 0
    case InterruptEnable => m.ie
    case HighRam(i) => m.zeroPageRam[i]
    case InterruptFlag => m.iflag
    case Joypad => m.joypad
    case DmaTrigger => gpu(a)
    case GpuRegister(x) => gpu(x)
    case Unmapped => 0
  }

  /** The first `n` steps of the DMA transfer from page `src`: step `i`
      reads `src * 0x100 + i` through the decoder (in the state left by the
      steps before it), stores the byte at sprite-table offset `i` and
      reports it to the sprite hook at `0xFE00 + i`. The contract is stated
      against the state before the transfer: no step reads a byte an
      earlier step wrote. */
  function DmaCopy(m: Mmu, gpu: GpuRead, src: Byte, n: nat): (r: Effect)
    requires Valid(m)
    requires n <= OamSize
    decreases n
    ensures Valid(r.mmu)
    ensures r.mmu == m.(oam := r.mmu.oam)
    ensures forall i :: 0 <= i < n ==> r.mmu.oam[i] == ReadByte(m, gpu, src * 0x100 + i)
    ensures forall i :: n <= i < OamSize ==> r.mmu.oam[i] == m.oam[i]
    ensures |r.events| == n
    ensures forall i :: 0 <= i < n ==> r.events[i] == UpdateSprite(0xFE00 + i, r.mmu.oam[i])
  {
    if n == 0 then Effect(m, [])
    else
      var prev := DmaCopy(m, gpu, src, n - 1);
      var a := src * 0x100 + n - 1;
      // only a transfer from page 0xFE reads the sprite table, and then at
      // offset n - 1, which no earlier step has written
      assert 0xFE00 <= a < 0xFEA0 ==> src == 0xFE;
      assert 0xFE00 <= a < 0xFEA0 ==> prev.mmu.oam[a - 0xFE00] == m.oam[a - 0xFE00];
      ReadIgnoresOtherOam(m, prev.mmu, gpu, a);
      var value := ReadByte(prev.mmu, gpu, a);
      Effect(prev.mmu.(oam := prev.mmu.oam[n - 1 := value]),
             prev.events + [UpdateSprite(0xFE00 + n - 1, value)])
  }

  /** A read is unaffected by changes to sprite-table bytes other than the
      one it addresses. */
  lemma ReadIgnoresOtherOam(m: Mmu, m': Mmu, gpu: GpuRead, a: Addr)
    requires Valid(m) && Valid(m')
    requires m' == m.(oam := m'.oam)
    requires 0xFE00 <= a < 0xFEA0 ==> m'.oam[a - 0xFE00] == m.oam[a - 0xFE00]
    ensures ReadByte(m', gpu, a) == ReadByte(m, gpu, a)
  {
  }

  /** The write of `value` to the DMA trigger register: a transfer of the
      whole 160-byte sprite table from page `value`. */
  function Dma(m: Mmu, gpu: GpuRead, value: Byte): (r: Effect)
    requires Valid(m)
    ensures Valid(r.mmu)
    ensures r.mmu == m.(oam := r.mmu.oam)
    ensures forall i :: 0 <= i < OamSize ==> r.mmu.oam[i] == ReadByte(m, gpu, value * 0x100 + i)
    ensures |r.events| == OamSize
    ensures forall i :: 0 <= i < OamSize ==> r.events[i] == UpdateSprite(0xFE00 + i, r.mmu.oam[i])
  {
    DmaCopy(m, gpu, value, OamSize)
  }

  /** The loop-shaped counterpart of `DmaCopy`: the loop in writeByte's
      0xFF46 case, as a method. It has the same contract as `Dma`, so both
      compute the same transfer; `WriteByte` uses the functional one. For
      `i` from 0 below 0xA0 it reads `(value << 8) + i` through the decoder
      in the current state, stores the byte at sprite offset `i` and reports
      it to the sprite hook.
      No iteration reads a byte an earlier one wrote, so the table ends up
      a copy of the page as it was before the transfer. */
  method DmaTransfer(m: Mmu, gpu: GpuRead, value: Byte) returns (r: Effect)
    requires Valid(m)
    ensures Valid(r.mmu)
    ensures r.mmu == m.(oam := r.mmu.oam)
    ensures forall i :: 0 <= i < OamSize ==> r.mmu.oam[i] == ReadByte(m, gpu, value * 0x100 + i)
    ensures |r.events| == OamSize
    ensures forall i :: 0 <= i < OamSize ==> r.events[i] == UpdateSprite(0xFE00 + i, r.mmu.oam[i])
  {
    var s := m;
    var log: seq<Event> := [];
    var i := 0;
    while i < OamSize
      invariant i <= OamSize
      invariant Valid(s) && s == m.(oam := s.oam)
      invariant forall j :: 0 <= j < i ==> s.oam[j] == ReadByte(m, gpu, value * 0x100 + j)
      invariant forall j :: i <= j < OamSize ==> s.oam[j] == m.oam[j]
      invariant |log| == i
      invariant forall j :: 0 <= j < i ==> log[j] == UpdateSprite(0xFE00 + j, s.oam[j])
    {
      var a := value * 0x100 + i;
      assert 0xFE00 <= a < 0xFEA0 ==> s.oam[a - 0xFE00] == m.oam[a - 0xFE00];
      ReadIgnoresOtherOam(m, s, gpu, a);
      var v := ReadByte(s, gpu, a);
      s := s.(oam := s.oam[i := v]);
      log := log + [UpdateSprite(0xFE00 + i, v)];
      i := i + 1;
    }
    r := Effect(s, log);
  }

  /** A byte write. The boot overlay and the program image ignore writes;
      video RAM writes below 0x9800 (tile data) call the tile hook; sprite
      table writes call the sprite hook; the unusable tail and undecoded
      I/O addresses discard the write. */
  function WriteByte(m: Mmu, gpu: GpuRead, a: Addr, v: Byte): (r: Effect)
    requires Valid(m)
    ensures Valid(r.mmu)
    ensures r.mmu.bios == m.bios && r.mmu.rom == m.rom && r.mmu.isInBios == m.isInBios
    ensures a < 0x8000 ==> r == Effect(m, [])
    ensures 0x8000 <= a < 0xA000 ==>
      && r.mmu == m.(videoRam := m.videoRam[a - 0x8000 := v])
      && r.events == (if a < 0x9800 then [UpdateTile(a, v)] else [])
    ensures 0xA000 <= a < 0xC000 ==> r == Effect(m.(cartridgeRam := m.cartridgeRam[a - 0xA000 := v]), [])
    ensures 0xC000 <= a < 0xE000 ==> r == Effect(m.(workingRam := m.workingRam[a - 0xC000 := v]), [])
    ensures 0xE000 <= a < 0xFE00 ==> r == Effect(m.(workingRam := m.workingRam[a - 0xE000 := v]), [])
    ensures 0xFE00 <= a < 0xFEA0 ==> r == Effect(m.(oam := m.oam[a - 0xFE00 := v]), [UpdateSprite(a, v)])
    ensures 0xFEA0 <= a < 0xFF00 ==> r == Effect(m, [])
    ensures a == 0xFF00 ==> r == Effect(m, [InputWrite(v)])
    ensures a == 0xFF0F ==> r == Effect(m.(iflag := v), [])
    ensures 0xFF01 <= a < 0xFF40 && a != 0xFF0F ==> r == Effect(m, [])
    ensures a == 0xFF46 ==>
      && r.mmu == m.(oam := r.mmu.oam)
      && (forall i :: 0 <= i < OamSize ==> r.mmu.oam[i] == ReadByte(m, gpu, v * 0x100 + i))
      && |r.events| == OamSize
      && (forall i :: 0 <= i < OamSize ==> r.events[i] == UpdateSprite(0xFE00 + i, r.mmu.oam[i]))
    ensures 0xFF40 <= a < 0xFF80 && a != 0xFF46 ==> r == Effect(m, [GpuWrite(a, v)])
    ensures 0xFF80 <= a < 0xFFFF ==> r == Effect(m.(zeroPageRam := m.zeroPageRam[a - 0xFF80 := v]), [])
    ensures a == 0xFFFF ==> r == Effect(m.(ie := v), [])
  {
    match Decode(a, m.isInBios)
    case BootRom(_) => Effect(m, [])
    case CartRom(_) => Effect(m, [])
    case VideoRam(i) =>
      Effect(m.(videoRam := m.videoRam[i := v]), if a < 0x9800 then [UpdateTile(a, v)] else [])
    case CartRam(i) => Effect(m.(cartridgeRam := m.cartridgeRam[i := v]), [])
    case WorkRam(i) => Effect(m.(workingRam := m.workingRam[i := v]), [])
    case Oam(i) => Effect(m.(oam := m.oam[i := v]), [UpdateSprite(a, v)])
    case OamTail => Effect(m, [])
    case InterruptEnable => Effect(m.(ie := v), [])
    case HighRam(i) => Effect(m.(zeroPageRam := m.zeroPageRam[i := v]), [])
    case InterruptFlag => Effect(m.(iflag := v), [])
    case Joypad => Effect(m, [InputWrite(v)])
    case DmaTrigger => Dma(m, gpu, v)
    case GpuRegister(x) => Effect(m, [GpuWrite(x, v)])
    case Unmapped => Effect(m, [])
  }

  /** A little-endian word read: the byte at `a + 1` is the high byte.
      There is no 16-bit wrap-around, so `a` is below 0xFFFF. */
  function ReadWord(m: Mmu, gpu: GpuRead, a: Addr): (r: nat)
    requires Valid(m)
    requires a < 0xFFFF
    ensures r < 0x1_0000
    ensures r % 0x100 == ReadByte(m, gpu, a)
    ensures r / 0x100 == ReadByte(m, gpu, a + 1)
  {
    // `hi << 8 | lo` with both operands below 0x100
    ReadByte(m, gpu, a + 1) * 0x100 + ReadByte(m, gpu, a)
  }

  /** A little-endian word write: two byte writes, low byte first, with the
      events of both in order. `w & 0xff` is `w % 0x100` and
      `(w >> 8) & 0xff` is `w / 0x100 % 0x100` for every integer `w`.
      Addresses do not wrap: at 0xFFFF the high byte goes to 0x10000, which
      writeByte decodes into the program-image case and discards. */
  function WriteWord(m: Mmu, gpu: GpuRead, a: Addr, w: int): (r: Effect)
    requires Valid(m)
    ensures Valid(r.mmu)
    ensures r.mmu.bios == m.bios && r.mmu.rom == m.rom && r.mmu.isInBios == m.isInBios
    ensures a == 0xFFFF ==> r == Effect(m.(ie := w % 0x100), [])
  {
    var low := WriteByte(m, gpu, a, w % 0x100);
    if a == 0xFFFF then low
    else
      var high := WriteByte(low.mmu, gpu, a + 1, w / 0x100 % 0x100);
      Effect(high.mmu, low.events + high.events)
  }
}
