/** The read-only queries of src/maze.c: row-major indexing, wall tests and the
    mapping between cell and world coordinates. The mask buffer is passed as the
    sequence of its bytes. */
module MazeGrid {
  import opened RaylibTypes
  import opened MazeFlags

  /** The direction tables of src/maze.c: the i-th direction, its step in x and y,
      and the side the neighbour sees it from. */
  const Dirs: seq<bv8> := [North, East, South, West]
  const DX: seq<int> := [0, 1, 0, -1]
  const DY: seq<int> := [-1, 0, 1, 0]
  const Opposite: seq<bv8> := [South, West, North, East]

  /** The step in x and y that a direction flag stands for. */
  function DeltaX(d: bv8): int
  {
    if d == East then 1 else if d == West then -1 else 0
  }

  function DeltaY(d: bv8): int
  {
    if d == North then -1 else if d == South then 1 else 0
  }

  predicate InGrid(width: int, height: int, x: int, y: int)
  {
    0 <= x < width && 0 <= y < height
  }

  /** The tables agree with each other: entry i of DX and DY is the step of Dirs[i],
      and Opposite[i] is the flag pointing straight back. */
  lemma TablesAligned(i: int)
    requires 0 <= i < 4
    ensures IsDirection(Dirs[i]) && IsDirection(Opposite[i])
    ensures DX[i] == DeltaX(Dirs[i]) && DY[i] == DeltaY(Dirs[i])
    ensures DeltaX(Opposite[i]) == -DX[i] && DeltaY(Opposite[i]) == -DY[i]
    ensures Opposite[i] != Dirs[i]
  {
  }

  /** A row-major index of an in-grid cell lies inside the buffer. */
  lemma RowMajorInRange(width: int, height: int, x: int, y: int)
    requires InGrid(width, height, x, y)
    ensures 0 <= y * width + x < width * height
  {
    assert y * width <= (height - 1) * width by {
      assert (height - 1) * width - y * width == (height - 1 - y) * width;
    }
  }

  /** A row-major index decodes back to its column and row. */
  lemma RowMajorDecodes(width: int, x: int, y: int)
    requires 0 <= x < width
    ensures (y * width + x) % width == x && (y * width + x) / width == y
  {
    DivModUnique(y * width + x, width, y, x);
  }

  lemma MulBounded(d: int, n: int)
    requires n > 0
    ensures d >= 1 ==> d * n >= n
    ensures d <= -1 ==> d * n <= -n
  {
    assert d * n - n == (d - 1) * n;
    assert d * n + n == (d + 1) * n;
  }

  /** Euclidean division is unique. */
  lemma DivModUnique(a: int, n: int, q: int, r: int)
    requires 0 < n && 0 <= r < n && a == q * n + r
    ensures a / n == q && a % n == r
  {
    var q', r' := a / n, a % n;
    assert (q - q') * n == r' - r;
    MulBounded(q - q', n);
  }

  /** Every buffer index is the row-major index of an in-grid cell. */
  lemma IndexCell(width: int, height: int, i: int)
    requires width >= 1 && 0 <= i < width * height
    ensures InGrid(width, height, i % width, i / width)
    ensures CellIndex(width, height, i % width, i / width) == i
  {
    var q, r := i / width, i % width;
    assert q * width <= i < height * width;
    MulLessCancel(q, height, width);
  }

  lemma MulLessCancel(a: int, b: int, n: int)
    requires n > 0 && a * n < b * n
    ensures a < b
  {
    assert (b - a) * n == b * n - a * n;
    MulBounded(b - a, n);
  }

  /** CellIndex: -1 for a position outside the grid, otherwise a row-major index
      inside the buffer. */
  function CellIndex(width: int, height: int, x: int, y: int): (idx: int)
    ensures idx == -1 <==> !(0 <= x < width && 0 <= y < height)
    ensures idx != -1 ==> 0 <= idx < width * height
  {
    if x < 0 || x >= width || y < 0 || y >= height then -1
    else
      RowMajorInRange(width, height, x, y);
      y * width + x
  }

  /** An index CellIndex returns decodes back to its column and row, so distinct
      cells never share a byte of the buffer. */
  lemma CellIndexDecodes(width: int, height: int, x: int, y: int)
    requires InGrid(width, height, x, y)
    ensures CellIndex(width, height, x, y) % width == x
    ensures CellIndex(width, height, x, y) / width == y
  {
    RowMajorDecodes(width, x, y);
  }

  lemma CellIndexInjective(width: int, height: int, x: int, y: int, x': int, y': int)
    requires InGrid(width, height, x, y) && InGrid(width, height, x', y')
    requires CellIndex(width, height, x, y) == CellIndex(width, height, x', y')
    ensures x == x' && y == y'
  {
    CellIndexDecodes(width, height, x, y);
    CellIndexDecodes(width, height, x', y');
  }

  /** Two in-grid positions share an index exactly when they are the same cell. */
  lemma SameCellSameIndex(width: int, height: int, x: int, y: int, x': int, y': int)
    requires InGrid(width, height, x, y) && InGrid(width, height, x', y')
    ensures (CellIndex(width, height, x, y) == CellIndex(width, height, x', y')) == (x == x' && y == y')
  {
    if CellIndex(width, height, x, y) == CellIndex(width, height, x', y') {
      CellIndexInjective(width, height, x, y, x', y');
    }
  }

  /** IsValidUnvisited: the position is inside the grid and not yet visited. */
  predicate IsValidUnvisited(width: int, height: int, visited: seq<bool>, x: int, y: int)
    requires |visited| == width * height
  {
    var idx := CellIndex(width, height, x, y);
    idx >= 0 && !visited[idx]
  }

  /** A position is a valid unvisited cell exactly when some unvisited slot of
      the buffer decodes to it. */
  lemma IsValidUnvisitedMeaning(width: int, height: int, visited: seq<bool>, x: int, y: int)
    requires width >= 1 && |visited| == width * height
    ensures IsValidUnvisited(width, height, visited, x, y) <==>
      exists i | 0 <= i < |visited| :: i % width == x && i / width == y && !visited[i]
  {
    if IsValidUnvisited(width, height, visited, x, y) {
      var i := CellIndex(width, height, x, y);
      CellIndexDecodes(width, height, x, y);
      assert i % width == x && i / width == y && !visited[i];
    }
    if exists i | 0 <= i < |visited| :: i % width == x && i / width == y && !visited[i] {
      var i :| 0 <= i < |visited| && i % width == x && i / width == y && !visited[i];
      IndexCell(width, height, i);
    }
  }

  /** Some neighbour of (x, y), in any of the four directions, is inside the grid
      and unvisited. */
  predicate HasUnvisitedNeighbor(width: int, height: int, visited: seq<bool>, x: int, y: int)
    requires |visited| == width * height
  {
    || IsValidUnvisited(width, height, visited, x, y - 1)
    || IsValidUnvisited(width, height, visited, x + 1, y)
    || IsValidUnvisited(width, height, visited, x, y + 1)
    || IsValidUnvisited(width, height, visited, x - 1, y)
  }

  /** Maze_HasWall: every position outside the grid is solid; inside it, the wall
      is present when its bit is set in the cell's mask. */
  predicate HasWall(width: int, height: int, cells: seq<bv8>, x: int, y: int, direction: bv8)
    requires |cells| == width * height
  {
    var idx := CellIndex(width, height, x, y);
    if idx < 0 then true else cells[idx] & direction != 0
  }

  /** The boundary is solid: a position outside the grid has a wall on every
      side, whatever the masks say. */
  lemma OutsideIsSolid(width: int, height: int, cells: seq<bv8>, x: int, y: int)
    requires |cells| == width * height && !InGrid(width, height, x, y)
    ensures forall d :: HasWall(width, height, cells, x, y, d)
  {
  }

  /** Maze_CellToWorld: the world XZ position of a cell's centre; the maze is
      centred on the world origin. */
  function CellToWorld(width: int, height: int, cellSize: real, cellX: int, cellY: int): Vector2
  {
    Vector2((cellX as real - width as real * 0.5 + 0.5) * cellSize,
            (cellY as real - height as real * 0.5 + 0.5) * cellSize)
  }

  /** Maze_WorldToCell: the cell under a world XZ position, truncating as the C
      cast does. */
  function WorldToCell(width: int, height: int, cellSize: real, worldX: real, worldZ: real): Cell
    requires cellSize > 0.0
  {
    Cell(Trunc(worldX / cellSize + width as real * 0.5),
         Trunc(worldZ / cellSize + height as real * 0.5))
  }

  /** Maze_IsExit */
  predicate IsExit(exitPos: Cell, cellX: int, cellY: int)
  {
    cellX == exitPos.x && cellY == exitPos.y
  }

  /** On one axis: every world coordinate in the half-open span of cell c maps
      back to c. */
  lemma {:induction false} AxisToCell(n: int, cellSize: real, c: int, w: real)
    requires cellSize > 0.0 && 0 <= c < n
    requires (c as real - n as real * 0.5) * cellSize <= w < (c as real - n as real * 0.5 + 1.0) * cellSize
    ensures Trunc(w / cellSize + n as real * 0.5) == c
  {
    var a := c as real - n as real * 0.5;
    MulDivCancel(a, cellSize);
    DivMonotone(a * cellSize, w, cellSize);
    var b := a + 1.0;
    var hi := b * cellSize;
    assert w < hi;
    MulDivCancel(b, cellSize);
    assert hi / cellSize == b;
    DivStrictMonotone(w, hi, cellSize);
    assert w / cellSize < b;
    assert a <= w / cellSize < a + 1.0;
  }

  lemma MulDivCancel(a: real, k: real)
    requires k != 0.0
    ensures (a * k) / k == a
  {
  }

  lemma DivMonotone(a: real, b: real, k: real)
    requires k > 0.0 && a <= b
    ensures a / k <= b / k
  {
    assert b / k - a / k == (b - a) / k;
  }

  lemma DivStrictMonotone(a: real, b: real, k: real)
    requires k > 0.0 && a < b
    ensures a / k < b / k
  {
    assert b / k - a / k == (b - a) / k;
  }

  /** Every world point inside the square of an in-grid cell (west and north
      edges included) maps to that cell. */
  lemma WorldToCellInsideCell(width: int, height: int, cellSize: real, x: int, y: int, worldX: real, worldZ: real)
    requires cellSize > 0.0 && InGrid(width, height, x, y)
    requires var c := CellToWorld(width, height, cellSize, x, y);
      c.x - cellSize * 0.5 <= worldX < c.x + cellSize * 0.5 &&
      c.y - cellSize * 0.5 <= worldZ < c.y + cellSize * 0.5
    ensures WorldToCell(width, height, cellSize, worldX, worldZ) == Cell(x, y)
  {
    AxisToCell(width, cellSize, x, worldX);
    AxisToCell(height, cellSize, y, worldZ);
  }

  /** Round trip: the centre of every in-grid cell maps back to that cell. */
  lemma CellWorldRoundTrip(width: int, height: int, cellSize: real, x: int, y: int)
    requires cellSize > 0.0 && InGrid(width, height, x, y)
    ensures var c := CellToWorld(width, height, cellSize, x, y);
      WorldToCell(width, height, cellSize, c.x, c.y) == Cell(x, y)
  {
    var c := CellToWorld(width, height, cellSize, x, y);
    WorldToCellInsideCell(width, height, cellSize, x, y, c.x, c.y);
  }
}
