/** Configuration values and cell flags of the dungeon generator (Constants.py). */
module Constants {
  /** Side of the square pre-trim dungeon grid. */
  const DUNGEON_SIZE: nat := 20
  /** Number of seed rectangles stamped by room_fill. */
  const BOX_COUNT: nat := 3
  /** Number of stochastic erosion iterations. */
  const ERODE_COUNT: nat := 5

  /** Inactive cell. */
  const WALL: bv8 := 0
  /** Seed flag written by room_fill, before scaling. */
  const TEMP: bv8 := 1
  /** Room-active flag (bit 4). */
  const ROOM: bv8 := 16

  /** Exit bits 0..3. */
  const NORTH: bv8 := 1
  const EAST: bv8 := 2
  const SOUTH: bv8 := 4
  const WEST: bv8 := 8
}
