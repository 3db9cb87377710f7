# Game Boy memory-management unit, modelled in Dafny

This project models the memory-management unit (MMU) of a Game Boy
emulator, the class `MMU` in `src/mmu.js`. The MMU takes a 16-bit address
and sends the access to one of these destinations:

- the 256-byte boot overlay, or the cartridge program image (ROM);
- video RAM, which the display controller (GPU) owns;
- cartridge RAM;
- work RAM, together with its mirror window;
- the sprite attribute table (OAM) and its unusable tail;
- the single-address registers: interrupt enable (IE), interrupt flag (IF),
  joypad and the DMA trigger;
- the display controller's register blocks;
- high ("zero-page") RAM.

A write to the DMA trigger copies 160 bytes into the sprite table. Word
accesses are little-endian and are made of two byte accesses.

The model is functional. The state is an immutable record of byte
sequences (`State.Mmu`). `Memory.ReadByte` is a pure function. `Memory.WriteByte`
returns the new state together with the hook events the write emitted: the
tile and sprite cache invalidations, the writes to display-controller
registers and the writes to the input device. `Decoder.Decode` is the
address decoder. Its body follows the nibble switches and masks of `readByte` and `writeByte`.
Its contract restates the result as the memory map, range by range, and
the accessors' contracts are written in those ranges too.

Files:

- `Types.dfy`: bytes, addresses and hook events.
- `State.dfy`: the state record, construction, `reset` and `loadROM`.
- `Decoder.dfy`: the address decoder.
- `Memory.dfy`: the byte accessors, the DMA engine and the word accessors.
- `Properties.dfy`: lemmas that relate several calls.

In two places the code does not do what the Game Boy hardware does. The
model follows the code in both:

- The hardware reduces addresses modulo 0x10000. The code does not:
  `readWord(0xFFFF)` reads address 0x10000, which falls into the program
  image. `Memory.ReadWord` therefore requires `a < 0xFFFF`.
  `writeWord(0xFFFF, w)` is well-defined in the code, and the model covers
  it. The low byte sets IE. The high byte goes to 0x10000, which
  `writeByte` decodes as program image and discards (`Properties.WordAtTop`).
- On the hardware, a write to 0xFF50 switches off the boot overlay.
  Nothing in the code clears `isInBIOS`: a write to 0xFF50 goes to the
  display controller like the rest of its block.
  `Properties.WritesKeepBootAndRom` proves that no run of writes changes
  the flag.

## Model

| member | source | states |
|---|---|---|
| Decoder.Decode | src/mmu.js:50-126 | Every address is classified. The boot overlay answers 0x0000-0x00FF only while the overlay is active; the program image answers the rest of 0x0000-0x7FFF. Video, cartridge and work RAM are addressed by their offset in the window. 0xE000-0xFDFF reaches the same work RAM offsets as 0xC000-0xDFFF. The sprite table is 0xFE00-0xFE9F, with the tail at 0xFEA0-0xFEFF. 0xFF00 is the joypad, 0xFF0F is IF and 0xFF46 is the DMA trigger. 0xFF40-0xFF7F belong to the display controller, 0xFF80-0xFFFE is high RAM and 0xFFFF is IE. Everything else in 0xFF01-0xFF3F is unmapped |
| Memory.ReadByte | src/mmu.js:50-127 | The value a read returns for each range of the memory map. The overlay and the ROM split as above, independent of the overlay flag above 0xFF. The work RAM mirror reads the primary window's bytes. The sprite tail and undecoded I/O addresses read 0. 0xFF40-0xFF7F (0xFF46 included) read the display controller's register function. 0xFFFF reads IE, not high RAM |
| Memory.WriteByte | src/mmu.js:128-221 | For each range, the exact new state and the events emitted. Writes below 0x8000 change nothing and emit nothing. A video RAM write updates one byte and emits `UpdateTile(a, v)` exactly when `a < 0x9800`. A sprite table write updates one byte and emits one `UpdateSprite(a, v)`. Tail and unmapped I/O writes change nothing. IF and IE are set. A joypad write and a display-register write are forwarded as events. A write of `v` to 0xFF46 changes only the sprite table: byte `i` becomes `ReadByte` of `v*0x100+i` in the state before the write, and the 160 `UpdateSprite(0xFE00+i, …)` events come in order. The boot overlay and the ROM are never changed |
| Memory.DmaCopy | src/mmu.js:200-207 | After the first `n` steps of the transfer, sprite bytes `0..n-1` hold what the decoder read at `src*0x100+i` in the starting state. The bytes from `n` on are untouched, and nothing outside the sprite table changes. `n` events `UpdateSprite(0xFE00+i, value)` have been logged. Each step reads through the state the earlier steps left |
| Memory.Dma | src/mmu.js:200-207 | The whole 160-byte transfer from page `value`: a copy taken through the decoder from the state before the transfer, with 160 sprite events |
| Memory.DmaTransfer | src/mmu.js:200-207 | The loop in `writeByte`'s 0xFF46 case: for `i` from 0 below 0xA0 it reads through the state the earlier iterations left, then stores and reports. The table ends up holding, at offset `i`, the byte the decoder gives for `value*0x100+i` in the state before the transfer. Nothing outside the table changes, and 160 events `UpdateSprite(0xFE00+i, …)` are logged in order |
| Memory.ReadWord | src/mmu.js:222-224 | A 16-bit value whose low byte is the byte at `a` and whose high byte is the byte at `a+1` |
| Memory.WriteWord | src/mmu.js:225-228 | The state stays well-formed, and the boot overlay, the ROM and the overlay flag are unchanged. At 0xFFFF only IE is set to the low byte: the high byte goes to 0x10000, which decodes as program image and is discarded |
| State.Reset | src/mmu.js:10-46 | Cartridge and work RAM become 8192 zeros and high RAM 128 zeros. The overlay becomes active. The ROM, the boot program and the collaborators' stores and registers are unchanged |
| State.Create | src/mmu.js:2-9 | A new unit has an empty program image, an active overlay and zeroed RAM of the fixed sizes |
| State.LoadRom | src/mmu.js:47-49 | The program image is the given one. Nothing else changes, and an image of at least 0x8000 bytes makes the state usable |
| Properties.ResetThenLoad | src/mmu.js:10-67 | After a reset and a load, the first 256 addresses read the boot program, 0x100-0x7FFF read the new image, and cartridge RAM, work RAM with its mirror and high RAM read 0 |
| Properties.LoadRomReplaces | src/mmu.js:47-49 | A second load leaves nothing of the first image |
| Properties.WritesKeepBootAndRom | src/mmu.js:128-221 | No run of byte writes, at any addresses, clears the boot-overlay flag or changes the boot program or the program image. Only `reset` sets the flag, and nothing clears it |
| Properties.RomWritesAreNoOps | src/mmu.js:130-145 | Any run of writes below 0x8000 leaves the state exactly as it was and emits no event |
| Properties.RomWriteInvisible | src/mmu.js:130-145 | A write below 0x8000 emits nothing and changes the read of no address |
| Properties.OamTailInert | src/mmu.js:96-101 | In every state the sprite tail reads 0, and a write to it gives back the same state with no events |
| Properties.ReadAfterWrite | src/mmu.js:146-199 | Video RAM, cartridge RAM, work RAM and its mirror, the usable sprite table, IF, high RAM and IE read back the byte just written |
| Properties.MirrorAlias | src/mmu.js:157-178 | A write through work RAM or through its mirror is read back through the other window. Both writes have the same effect |
| Properties.SameCellIffMirror | src/mmu.js:74-95 | Two retaining addresses decode to the same cell exactly when they are equal or one is the other's mirror |
| Properties.WriteFrame | src/mmu.js:128-221 | Apart from the DMA trigger, a write changes no read of an address that decodes to a different cell |
| Properties.DmaFromWorkRam | src/mmu.js:200-207 | A transfer from a work RAM or mirror page (0xC0-0xFD) fills the sprite table with the 160 work RAM bytes at that page's offset |
| Properties.DmaFromOamIdentity | src/mmu.js:200-207 | A transfer from page 0xFE leaves the state unchanged |
| Properties.DmaEventsAscending | src/mmu.js:200-207 | The transfer emits exactly 160 sprite events at 0xFE00..0xFE9F, in strictly ascending order |
| Properties.WordRoundTrip | src/mmu.js:222-228 | When both bytes fall in retaining addresses, a word write followed by a word read returns `w & 0xffff`. The low byte is at `a` and the high byte at `a+1` |
| Properties.WordFrame | src/mmu.js:225-228 | When neither byte address is the DMA trigger, a word write changes no read of an address whose cell differs from the cells of both bytes |
| Properties.WordEvents | src/mmu.js:225-228 | A word write into stores without hooks (cartridge RAM, work RAM and its mirror, IF, high RAM, IE) emits no events. One entirely inside tile data emits exactly `UpdateTile(a, lo)` then `UpdateTile(a+1, hi)` |
| Properties.WordAtTop | src/mmu.js:225-228 | `writeWord(0xFFFF, w)` sets IE to `w & 0xff`, changes nothing else and emits nothing |
| Properties.WordStraddlesRomAndVideoRam | src/mmu.js:225-228 | A word write at 0x7FFF leaves the ROM alone. It stores the high byte at video RAM offset 0 and emits exactly one `UpdateTile(0x8000, high byte)` |

## Left out

- Display-controller register semantics are not modelled. Reads of 0xFF40-0xFF7F go to an arbitrary function `gpu` of the address, and writes become `GpuWrite` events. The GPU code is not part of this model.
- The internals of `updateTile` and `updateSprite` are not modelled; their calls are logged as events.
- Properties.WriteFrame: the display controller's register reads are one fixed function `gpu`. It is the same before and after a write, and `GpuWrite` events are not fed back into it. The lemma's conclusion for a read address in 0xFF40-0xFF7F therefore depends on this assumption. The real `GPU.writeByte` may change what a later `GPU.readByte` returns, and the GPU code is not part of this model. The same holds for `Properties.WordFrame`, and for `Properties.WriteAll`, which uses one `gpu` for a whole run of writes, so a later DMA from page 0xFF reads the register values from before those writes.
- The interrupt controller is not modelled. IE and IF are plain byte registers in the state.
- The input device is not modelled. The joypad register's value is part of the state, and the model never changes it. A write to 0xFF00 is logged as `InputWrite` but is not fed back into `joypad`. So a read of 0xFF00 after a write returns the value from before the write, although the real device may answer differently after `input.writeByte`. The same holds across a run in `Properties.WriteAll`: a later DMA from page 0xFF reads the joypad value from before the writes.
- The boot program's literal bytes are not modelled. `bios` is an arbitrary 256-byte sequence fixed at construction, and `Reset` keeps it because the literal is the same on every reset.
- The JavaScript return values of `writeByte` and `writeWord` are incidental and are not modelled.
- Memory.WriteByte: the value is a byte (0-255). The source stores whatever number it is given, unmasked, and shifts it for the DMA source page. This is an assumption of the model. Within the unit, `writeWord` passes masked bytes and the DMA loop does not call `writeByte`. The other callers, such as the processor, are not part of this model.
- Memory.WriteByte: requires `Valid(m)`, including a program image of at least 0x8000 bytes. So do `Memory.Dma`, `Memory.DmaCopy`, `Memory.DmaTransfer`, `Memory.WriteWord` and `Properties.WriteAll`. `writeByte` needs the image only for a DMA transfer from a page below 0x80. Writes to RAM or registers also work on a freshly constructed unit, whose image is still empty. The model does not cover writes before the first load.
- Memory.ReadByte: requires a program image of at least 0x8000 bytes. Below that size, JavaScript returns `undefined` for reads past the end of the image.
- Memory.ReadWord: requires `a < 0xFFFF`. The source has no 16-bit wrap-around, so at 0xFFFF it would read address 0x10000.
- Memory.WriteWord: its own contract states well-formedness, the unchanged boot program, ROM and flag, and the 0xFFFF case. The other properties are lemmas: the read-back (`Properties.WordRoundTrip`), the frame (`Properties.WordFrame`), and the events for stores without hooks, for tile data and at 0x7FFF (`Properties.WordEvents`, `Properties.WordStraddlesRomAndVideoRam`). For the remaining combinations, the word write's events are those of its two byte writes, as `Memory.WriteByte`'s contract gives them. No lemma states them for the word as a whole. This covers a word write at 0xFF45 or 0xFF46, which starts a full DMA transfer and emits 161 events.
- Cartridge bank switching and boot-overlay disabling do not exist in the code, so they are not modelled.
