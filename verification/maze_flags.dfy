/** The wall flags and records of the maze header. */
module MazeFlags {
  import opened RaylibTypes

  /** One bit per side of a cell; a set bit means the wall on that side is present. */
  const North: bv8 := 0x01
  const East: bv8 := 0x02
  const South: bv8 := 0x04
  const West: bv8 := 0x08
  /** The mask of a cell that has all four walls. */
  const AllWalls: bv8 := 0x0F

  /** A cell position in grid coordinates (the header keeps these as float vectors). */
  datatype Cell = Cell(x: int, y: int)

  /** A collision rectangle in the XZ plane. `isVertical` is set for the West and
      East segments, the ones that run along Z. */
  datatype WallRect = WallRect(rect: Rectangle, isVertical: bool)

  predicate IsDirection(d: bv8)
  {
    d == North || d == East || d == South || d == West
  }

  /** The four flags are distinct single bits and their union is AllWalls, so a
      mask built from them never leaves 0..15. */
  lemma FlagsAreDistinctBits()
    ensures forall d :: IsDirection(d) ==> d != 0 && d & (d - 1) == 0 && d & AllWalls == d
    ensures North & East == 0 && North & South == 0 && North & West == 0
    ensures East & South == 0 && East & West == 0 && South & West == 0
    ensures North | East | South | West == AllWalls
  {
  }
}
