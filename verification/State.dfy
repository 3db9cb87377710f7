/** The unit's state and the operations that (re)initialise it. */
module State {
  import opened Types

  const BiosSize := 0x100
  const MinRomSize := 0x8000
  const VideoRamSize := 0x2000
  const CartridgeRamSize := 0x2000
  const WorkingRamSize := 0x2000
  const OamSize := 0xA0
  const ZeroPageRamSize := 0x80

  /** Every store the unit reads or writes. `videoRam` and `oam` belong to
      the display controller, `ie`/`iflag` to the interrupt controller and
      `joypad` to the input device; they are kept here as plain values. */
  datatype Mmu = Mmu(
    bios: seq<Byte>,
    rom: seq<Byte>,
    videoRam: seq<Byte>,
    cartridgeRam: seq<Byte>,
    workingRam: seq<Byte>,
    oam: seq<Byte>,
    zeroPageRam: seq<Byte>,
    isInBios: bool,
    ie: Byte,
    iflag: Byte,
    joypad: Byte)

  /** Every store has its fixed size. The program image may still be empty. */
  predicate Sized(m: Mmu) {
    && |m.bios| == BiosSize
    && |m.videoRam| == VideoRamSize
    && |m.cartridgeRam| == CartridgeRamSize
    && |m.workingRam| == WorkingRamSize
    && |m.oam| == OamSize
    && |m.zeroPageRam| == ZeroPageRamSize
  }

  /** A state the accessors may be used on: sized, with a program image
      covering the whole 0x0000-0x7FFF window. */
  predicate Valid(m: Mmu) {
    Sized(m) && |m.rom| >= MinRomSize
  }

  predicate AllZero(s: seq<Byte>) {
    forall i :: 0 <= i < |s| ==> s[i] == 0
  }

  function Zeros(n: nat): (z: seq<Byte>)
    ensures |z| == n && AllZero(z)
  {
    seq(n, _ => 0)
  }

  /** Re-initialises the stores the unit owns: zeroed cartridge, work and
      high RAM, boot overlay active. The boot program is the same literal on
      every reset, so the model keeps the one it has. Stores owned by the
      collaborators and the program image are not touched. */
  function Reset(m: Mmu): (r: Mmu)
    ensures r.isInBios
    ensures |r.cartridgeRam| == CartridgeRamSize && AllZero(r.cartridgeRam)
    ensures |r.workingRam| == WorkingRamSize && AllZero(r.workingRam)
    ensures |r.zeroPageRam| == ZeroPageRamSize && AllZero(r.zeroPageRam)
    ensures r.bios == m.bios && r.rom == m.rom
    ensures r.videoRam == m.videoRam && r.oam == m.oam
    ensures r.ie == m.ie && r.iflag == m.iflag && r.joypad == m.joypad
    ensures Sized(m) ==> Sized(r)
  {
    m.(isInBios := true,
       cartridgeRam := Zeros(CartridgeRamSize),
       workingRam := Zeros(WorkingRamSize),
       zeroPageRam := Zeros(ZeroPageRamSize))
  }

  /** Construction: an empty program image, then a reset. The boot program
      and the collaborators' stores and registers are supplied. */
  function Create(bios: seq<Byte>, videoRam: seq<Byte>, oam: seq<Byte>,
                  ie: Byte, iflag: Byte, joypad: Byte): (r: Mmu)
    requires |bios| == BiosSize && |videoRam| == VideoRamSize && |oam| == OamSize
    ensures Sized(r) && r.rom == [] && r.isInBios
    ensures r.bios == bios && r.videoRam == videoRam && r.oam == oam
    ensures AllZero(r.cartridgeRam) && AllZero(r.workingRam) && AllZero(r.zeroPageRam)
  {
    Reset(Mmu(bios, [], videoRam, [], [], oam, [], false, ie, iflag, joypad))
  }

  /** Installs a program image, replacing the previous one as a whole. */
  function LoadRom(m: Mmu, rom: seq<Byte>): (r: Mmu)
    ensures r.rom == rom
    ensures r == m.(rom := r.rom)
    ensures Sized(m) && |rom| >= MinRomSize ==> Valid(r)
  {
    m.(rom := rom)
  }
}
