// The byte that mp2/maze.h keeps for a maze cell, and the masks that maze.c applies to
// it, against the fields of a cell.
module MazeBits {
  import opened MazeGrid

  const WALL_BIT: bv8 := 1
  const FRUIT_1: bv8 := 2
  const FRUIT_BITS: bv8 := 14
  const EXIT_BIT: bv8 := 16
  const REACH_BIT: bv8 := 128

  function Bit(b: bool, mask: bv8): bv8 {
    if b then mask else 0
  }

  function Encode(c: Cell): bv8
    requires c.fruit < 8
  {
    Bit(c.wall, WALL_BIT) | ((c.fruit as bv8) * FRUIT_1) | Bit(c.exit, EXIT_BIT) | Bit(c.reach, REACH_BIT)
  }

  function Decode(b: bv8): Cell {
    Cell(b & WALL_BIT != 0, ((b & FRUIT_BITS) / FRUIT_1) as nat, b & EXIT_BIT != 0, b & REACH_BIT != 0)
  }

  /** A byte without the two unused bits is the byte of its cell. */
  lemma ByteIsItsCell(b: bv8)
    requires b & 96 == 0
    ensures Decode(b).fruit < 8 && Encode(Decode(b)) == b
  {
    var f := (b & FRUIT_BITS) / FRUIT_1;
    assert f < 8 && (f as nat) as bv8 == f;
  }

  lemma CellIsItsByte(c: Cell)
    requires c.fruit < 8
    ensures Encode(c) & 96 == 0 && Decode(Encode(c)) == c
  {
    assert c.fruit == 0 || c.fruit == 1 || c.fruit == 2 || c.fruit == 3
        || c.fruit == 4 || c.fruit == 5 || c.fruit == 6 || c.fruit == 7;
  }

  /** What the masks of maze.c do to a byte is what the model does to its cell: the
      marks of reach, exit and a new fruit, clearing a fruit and a mark, and the
      comparison with a plain wall. */
  lemma MasksAreFields(b: bv8, fruit: nat)
    requires b & 96 == 0 && 1 <= fruit < 8
    ensures Decode(b | REACH_BIT) == Decode(b).(reach := true)
    ensures Decode(b & !REACH_BIT) == Decode(b).(reach := false)
    ensures Decode(b | EXIT_BIT) == Decode(b).(exit := true)
    ensures Decode(b & !FRUIT_BITS) == Decode(b).(fruit := 0)
    ensures b & FRUIT_BITS == 0 ==> Decode(b | ((fruit as bv8) * FRUIT_1)) == Decode(b).(fruit := fruit)
    ensures Decode(WALL_BIT) == MAZE_WALL && Decode(0) == MAZE_NONE
    ensures b == WALL_BIT <==> Decode(b) == MAZE_WALL
  {
    assert fruit == 1 || fruit == 2 || fruit == 3 || fruit == 4 || fruit == 5 || fruit == 6 || fruit == 7;
  }
}
