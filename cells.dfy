/** The fixed-width cell record that the engine and the numeric kernel share,
    the reserved cell types, and the flag bits of the record's `flags` byte. */
module Cells {

  /** A byte, as the record's `type` field stores it. */
  type Byte = x: int | 0 <= x < 256
  /** An unsigned 16-bit value, as `eatenBy` and the index buffer store it. */
  type U16 = x: int | 0 <= x < 0x1_0000
  /** An unsigned 32-bit value, as `age` stores it. */
  type U32 = x: int | 0 <= x < 0x1_0000_0000

  // Reserved cell types; every type up to 250 is a player id.
  const DEAD_CELL_TYPE: Byte := 251
  const MOTHER_CELL_TYPE: Byte := 252
  const VIRUS_TYPE: Byte := 253
  const PELLET_TYPE: Byte := 254
  const EJECTED_TYPE: Byte := 255

  predicate IsPlayer(t: int) { t <= 250 }

  // Flag bits.
  const EXIST_BIT: bv8 := 0x01
  const UPDATE_BIT: bv8 := 0x02
  const INSIDE_BIT: bv8 := 0x04
  const AUTOSPLIT_BIT: bv8 := 0x10
  const REMOVE_BIT: bv8 := 0x20
  const MERGE_BIT: bv8 := 0x40
  const POP_BIT: bv8 := 0x80
  /** The bits that survive the start of a tick: EXIST, bit 3 and MERGE. */
  const CLEAR_BITS: bv8 := 0x49
  /** A record with any of these bits (REMOVE, POP, INSIDE) is skipped by resolution. */
  const SKIP_RESOLVE_BITS: bv8 := 0xa4

  predicate Has(flags: bv8, bit: bv8) { flags & bit != 0 }

  /** One cell record. Positions, radius and boost are floats in the source
      and reals here. */
  datatype CellRec = CellRec(
    x: real, y: real, r: real,
    ty: Byte, flags: bv8, eatenBy: U16, age: U32,
    boostX: real, boostY: real, boost: real)

  /** The all-zero record `memset` leaves behind. */
  const Zero: CellRec := CellRec(0.0, 0.0, 0.0, 0, 0, 0, 0, 0.0, 0.0, 0.0)

  /** A slot holds a live record while its EXIST bit is set. */
  predicate Exists(c: CellRec) { Has(c.flags, EXIST_BIT) }

  /** Size of one record in bytes; cells live at offset 0 of the arena, so a
      record's address shifted right by five is its slot id. */
  const BYTES_PER_CELL: nat := 32
}
