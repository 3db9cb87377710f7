/** The address decoder: one destination for every 16-bit address. */
module Decoder {
  import opened Types

  /** Where an access goes. Offsets index the region's store. */
  datatype Target =
    | BootRom(offset: nat)        // boot overlay
    | CartRom(offset: nat)        // program image
    | VideoRam(offset: nat)
    | CartRam(offset: nat)
    | WorkRam(offset: nat)        // primary window and its mirror
    | Oam(offset: nat)            // sprite attribute table
    | OamTail                     // unusable tail of the sprite window
    | InterruptEnable
    | HighRam(offset: nat)        // "zero-page" RAM
    | InterruptFlag
    | Joypad
    | DmaTrigger
    | GpuRegister(addr: Addr)     // the display controller's register blocks
    | Unmapped                    // the rest of the I/O page

  /** Decodes `a` the way the accessors do: by the top nibble, inside the
      0xF000 page by the second nibble, and inside the I/O page by the
      single-address registers and then the third nibble (blocks 0x40-0x70
      belong to the display controller). `& 0xf000` is `/ 0x1000`, the
      region masks `& 0x1fff`, `& 0xff`, `& 0x7f` are `% 0x2000`, `% 0x100`,
      `% 0x80`. The contract restates the result as the memory map. */
  function Decode(a: Addr, inBios: bool): (t: Target)
    ensures a < 0x100 && inBios ==> t == BootRom(a)
    ensures a < 0x100 && !inBios ==> t == CartRom(a)
    ensures 0x100 <= a < 0x8000 ==> t == CartRom(a)
    ensures 0x8000 <= a < 0xA000 ==> t == VideoRam(a - 0x8000)
    ensures 0xA000 <= a < 0xC000 ==> t == CartRam(a - 0xA000)
    ensures 0xC000 <= a < 0xE000 ==> t == WorkRam(a - 0xC000)
    ensures 0xE000 <= a < 0xFE00 ==> t == WorkRam(a - 0xE000)
    ensures 0xFE00 <= a < 0xFEA0 ==> t == Oam(a - 0xFE00)
    ensures 0xFEA0 <= a < 0xFF00 ==> t == OamTail
    ensures a == 0xFF00 ==> t == Joypad
    ensures a == 0xFF0F ==> t == InterruptFlag
    ensures 0xFF01 <= a < 0xFF40 && a != 0xFF0F ==> t == Unmapped
    ensures a == 0xFF46 ==> t == DmaTrigger
    ensures 0xFF40 <= a < 0xFF80 && a != 0xFF46 ==> t == GpuRegister(a)
    ensures 0xFF80 <= a < 0xFFFF ==> t == HighRam(a - 0xFF80)
    ensures a == 0xFFFF ==> t == InterruptEnable
  {
    var page := a / 0x1000;
    if page < 0x4 then
      if inBios && a < 0x100 then BootRom(a) else CartRom(a)
    else if page < 0x8 then CartRom(a)
    else if page < 0xA then VideoRam(a % 0x2000)
    else if page < 0xC then CartRam(a % 0x2000)
    else if page < 0xF then WorkRam(a % 0x2000)
    else
      var row := a / 0x100 % 0x10;
      if row < 0xE then WorkRam(a % 0x2000)
      else if row == 0xE then
        if a < 0xFEA0 then Oam(a % 0x100) else OamTail
      else if a == 0xFFFF then InterruptEnable
      else if a >= 0xFF80 then HighRam(a % 0x80)
      else if a == 0xFF0F then InterruptFlag
      else if a == 0xFF00 then Joypad
      else if a == 0xFF46 then DmaTrigger
      else
        var block := a / 0x10 % 0x10;
        if 0x4 <= block <= 0x7 then GpuRegister(a) else Unmapped
  }

  /** Two addresses name the same storage cell. */
  predicate SameCell(a: Addr, b: Addr, inBios: bool) {
    Decode(a, inBios) == Decode(b, inBios)
  }
}
