/** Basic value types of the memory-management unit: bytes, 16-bit
    addresses and the hook events the unit reports to its collaborators. */
module Types {

  /** An 8-bit value as stored in every region of the address space. */
  type Byte = x: int | 0 <= x < 0x100

  /** A 16-bit address; the decoder classifies every one of them. */
  type Addr = x: int | 0 <= x < 0x1_0000

  /** Calls the unit makes into its collaborators when a write has a side
      effect outside its own stores; the model records them in order. */
  datatype Event =
    | UpdateTile(addr: Addr, value: Byte)    // display controller: tile cache invalidation
    | UpdateSprite(addr: Addr, value: Byte)  // display controller: sprite cache invalidation
    | GpuWrite(addr: Addr, value: Byte)      // display controller: register-block write
    | InputWrite(value: Byte)                // input device: register write
}
