/** Grid geometry of the snake game: cell positions, directions, one-cell steps
    and the border test. Every coordinate is an integer number of pixels; the
    playing field is the box [10, 780] x [10, 540] and a cell is 10 pixels wide. */
module Geometry {

  /** Side of one cell (SNAKE_BLOCK_SIZE). */
  const BlockSize: int := 10
  /** Largest x coordinate still inside the field (BORDER_WIDTH). */
  const BorderWidth: int := 780
  /** Largest y coordinate still inside the field (BORDER_HEIGHT). */
  const BorderHeight: int := 540
  /** Start cell of the snake's head (INITIAL_POSX, INITIAL_POSY). */
  const InitialX: int := 390
  const InitialY: int := 270

  /** The top-left corner of a 10x10 cell. */
  datatype Pos = Pos(x: int, y: int)

  /** The four headings, in the order of the source's enumeration. */
  datatype Direction = Up | Down | Right | Left

  function Opposite(d: Direction): Direction
  {
    match d
    case Up => Down
    case Down => Up
    case Right => Left
    case Left => Right
  }

  /** Two cells are neighbours: they share a side. */
  predicate Adjacent(p: Pos, q: Pos)
  {
    (p.x == q.x && (p.y - q.y == BlockSize || q.y - p.y == BlockSize)) ||
    (p.y == q.y && (p.x - q.x == BlockSize || q.x - p.x == BlockSize))
  }

  /** Both coordinates lie on the 10-pixel grid. */
  predicate Aligned(p: Pos)
  {
    p.x % BlockSize == 0 && p.y % BlockSize == 0
  }

  /** The playing field, borders included. */
  predicate InField(p: Pos)
  {
    BlockSize <= p.x <= BorderWidth && BlockSize <= p.y <= BorderHeight
  }

  /** The cell one step away from `p` in direction `d`; y grows downwards. */
  function Step(p: Pos, d: Direction): (q: Pos)
    ensures Adjacent(p, q)
    ensures Aligned(p) ==> Aligned(q)
  {
    match d
    case Up => Pos(p.x, p.y - BlockSize)
    case Down => Pos(p.x, p.y + BlockSize)
    case Right => Pos(p.x + BlockSize, p.y)
    case Left => Pos(p.x - BlockSize, p.y)
  }

  /** raylib's CheckCollisionRecs for two 10x10 cells: the open rectangles
      overlap on both axes. */
  predicate CellsOverlap(a: Pos, b: Pos)
  {
    a.x < b.x + BlockSize && b.x < a.x + BlockSize &&
    a.y < b.y + BlockSize && b.y < a.y + BlockSize
  }

  /** On the grid, two cells overlap exactly when they are the same cell. */
  lemma AlignedOverlapIsEquality(a: Pos, b: Pos)
    requires Aligned(a) && Aligned(b)
    ensures CellsOverlap(a, b) <==> a == b
  {
    if CellsOverlap(a, b) {
      var ax, bx, ay, by' := a.x / BlockSize, b.x / BlockSize, a.y / BlockSize, b.y / BlockSize;
      assert a.x == BlockSize * ax && b.x == BlockSize * bx;
      assert a.y == BlockSize * ay && b.y == BlockSize * by';
      assert ax == bx && ay == by';
    }
  }

  /** isTouchingBorders: 1 when the cell lies outside the field. */
  function IsTouchingBorders(x: int, y: int): (r: int)
    ensures r == 0 || r == 1
    ensures r == 1 <==> !InField(Pos(x, y))
  {
    if x > BorderWidth || x < BlockSize || y > BorderHeight || y < BlockSize then 1 else 0
  }

  /** The raylib random draw rounded down to the grid: (v / 10) * 10. The draw
      is never negative, so Dafny's division agrees with C's here. */
  function SnapToGrid(v: int): (r: int)
    requires v >= 0
    ensures r % BlockSize == 0
    ensures r <= v < r + BlockSize
  {
    (v / BlockSize) * BlockSize
  }
}
