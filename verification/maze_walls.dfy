/** Maze_GetWallRects of src/maze.c: the collision rectangles of the standing
    walls. Every wall between two cells belongs to exactly one of them: each cell
    emits its North and West walls, the last column also its East walls and the
    last row also its South walls. Cells are scanned row by row, and the output
    buffer holds maxRects entries. */
module MazeWalls {
  import opened RaylibTypes
  import opened MazeFlags
  import opened MazeGrid
  import opened MazeBuild

  /** The collision thickness of a wall, in world units. */
  const WallThick: real := 0.1

  /** A wall along X (a North or South side) starting at the corner (x, z),
      one cell long plus the thickness. */
  function AlongX(x: real, z: real, cellSize: real): WallRect
  {
    WallRect(Rectangle(x - WallThick * 0.5, z - WallThick * 0.5, cellSize + WallThick, WallThick), false)
  }

  /** A wall along Z (a West or East side) starting at the corner (x, z). */
  function AlongZ(x: real, z: real, cellSize: real): WallRect
  {
    WallRect(Rectangle(x - WallThick * 0.5, z - WallThick * 0.5, WallThick, cellSize + WallThick), true)
  }

  // ---------------------------------------------------------------- specification

  /** The rectangles of cell (x, y) with wall mask m, in the order they are
      written: North, West, then East in the last column and South in the last
      row. Each sits on its side of the cell's square. */
  function CellRects(width: int, height: int, cellSize: real, m: bv8, x: int, y: int): seq<WallRect>
  {
    var c := CellToWorld(width, height, cellSize, x, y);
    var half := cellSize * 0.5;
    Side(m & North != 0, AlongX(c.x - half, c.y - half, cellSize))
    + Side(m & West != 0, AlongZ(c.x - half, c.y - half, cellSize))
    + Side(x == width - 1 && m & East != 0, AlongZ(c.x + half, c.y - half, cellSize))
    + Side(y == height - 1 && m & South != 0, AlongX(c.x - half, c.y + half, cellSize))
  }

  /** The rectangle of one side, when that wall is there. */
  function Side(present: bool, r: WallRect): seq<WallRect>
  {
    if present then [r] else []
  }

  /** The number of walls cell (x, y) with mask m is responsible for. */
  function Responsible(width: int, height: int, m: bv8, x: int, y: int): nat
  {
    (if m & North != 0 then 1 else 0)
    + (if m & West != 0 then 1 else 0)
    + (if x == width - 1 && m & East != 0 then 1 else 0)
    + (if y == height - 1 && m & South != 0 then 1 else 0)
  }

  /** A cell contributes one rectangle per wall it is responsible for. */
  lemma CellRectsCount(width: int, height: int, cellSize: real, m: bv8, x: int, y: int)
    ensures var r := CellRects(width, height, cellSize, m, x, y);
      && |r| == Responsible(width, height, m, x, y)
      && |r| <= 2 + (if x == width - 1 then 1 else 0) + (if y == height - 1 then 1 else 0)
  {
  }

  /** The masks of row y. */
  function Row(width: int, height: int, cells: seq<bv8>, y: int): (row: seq<bv8>)
    requires |cells| == width * height && 0 <= y < height && width >= 0
    ensures |row| == width
  {
    if width == 0 then []
    else
      RowMajorInRange(width, height, width - 1, y);
      cells[y * width .. y * width + width]
  }

  /** Entry x of row y is the mask of cell (x, y). */
  lemma RowAt(width: int, height: int, cells: seq<bv8>, x: int, y: int)
    requires |cells| == width * height && InGrid(width, height, x, y)
    ensures Row(width, height, cells, y)[x] == cells[CellIndex(width, height, x, y)]
  {
    var i := y * width;
    RowMajorInRange(width, height, width - 1, y);
    assert Row(width, height, cells, y) == cells[i .. i + width];
    assert CellIndex(width, height, x, y) == i + x;
  }

  /** The mask buffer seen as its rows. */
  function Rows(width: int, height: int, cells: seq<bv8>): (rows: seq<seq<bv8>>)
    requires width >= 0 && height >= 0 && |cells| == width * height
    ensures |rows| == height
  {
    seq(height, y requires 0 <= y < height => Row(width, height, cells, y))
  }

  /** The pieces laid end to end. */
  function Concat(parts: seq<seq<WallRect>>): seq<WallRect>
    decreases |parts|
  {
    if parts == [] then [] else Concat(parts[..|parts| - 1]) + parts[|parts| - 1]
  }

  /** The rectangles of each cell of row y, cell by cell. */
  function CellParts(width: int, height: int, cellSize: real, row: seq<bv8>, y: int): (parts: seq<seq<WallRect>>)
    ensures |parts| == |row|
  {
    seq(|row|, x requires 0 <= x < |row| => CellRects(width, height, cellSize, row[x], x, y))
  }

  /** The rectangles of one row, in scan order. */
  function RowRects(width: int, height: int, cellSize: real, row: seq<bv8>, y: int): seq<WallRect>
  {
    Concat(CellParts(width, height, cellSize, row, y))
  }

  /** The rectangles of each row, row by row. */
  function RowParts(width: int, height: int, cellSize: real, rows: seq<seq<bv8>>): (parts: seq<seq<WallRect>>)
    ensures |parts| == |rows|
  {
    seq(|rows|, y requires 0 <= y < |rows| => RowRects(width, height, cellSize, rows[y], y))
  }

  /** The rectangles of the whole maze, in the order the scan writes them. */
  function AllRects(width: int, height: int, cellSize: real, cells: seq<bv8>): seq<WallRect>
    requires width >= 0 && height >= 0 && |cells| == width * height
  {
    Concat(RowParts(width, height, cellSize, Rows(width, height, cells)))
  }

  lemma ConcatStep(parts: seq<seq<WallRect>>, k: int)
    requires 0 <= k < |parts|
    ensures Concat(parts[..k + 1]) == Concat(parts[..k]) + parts[k]
  {
    assert parts[..k + 1][..k] == parts[..k];
  }

  /** Fewer pieces give a prefix of the whole. */
  lemma {:induction false} ConcatPrefix(parts: seq<seq<WallRect>>, k: int)
    requires 0 <= k <= |parts|
    ensures var a, b := Concat(parts[..k]), Concat(parts);
      |a| <= |b| && b[..|a|] == a
    decreases |parts|
  {
    if k < |parts| {
      var init := parts[..|parts| - 1];
      assert init[..k] == parts[..k];
      ConcatPrefix(init, k);
    } else {
      assert parts[..k] == parts;
    }
  }

  // ---------------------------------------------------------------- bound

  /** Each cell of a row contributes at most two rectangles, plus the East wall
      of its last cell and the South walls of the last row. */
  lemma {:induction false} RowRectsBound(width: int, height: int, cellSize: real, row: seq<bv8>, y: int, n: int)
    requires 0 <= n <= |row| == width
    ensures |Concat(CellParts(width, height, cellSize, row, y)[..n])|
      <= 2 * n + (if n == width then 1 else 0) + (if y == height - 1 then n else 0)
  {
    if n > 0 {
      RowRectsBound(width, height, cellSize, row, y, n - 1);
      ConcatStep(CellParts(width, height, cellSize, row, y), n - 1);
      CellRectsCount(width, height, cellSize, row[n - 1], n - 1, y);
    }
  }

  lemma {:induction false} GridRectsBound(width: int, height: int, cellSize: real, rows: seq<seq<bv8>>, m: int)
    requires width >= 0 && 0 <= m <= |rows| == height && forall y | 0 <= y < |rows| :: |rows[y]| == width
    ensures |Concat(RowParts(width, height, cellSize, rows)[..m])|
      <= Repeat(m, 2 * width + 1) + (if m == height then width else 0)
  {
    if m > 0 {
      var parts := RowParts(width, height, cellSize, rows);
      GridRectsBound(width, height, cellSize, rows, m - 1);
      ConcatStep(parts, m - 1);
      RowRectsBound(width, height, cellSize, rows[m - 1], m - 1, width);
      assert CellParts(width, height, cellSize, rows[m - 1], m - 1)[..width]
          == CellParts(width, height, cellSize, rows[m - 1], m - 1);
    }
  }

  /** m times k, by repeated addition. */
  function Repeat(m: nat, k: int): int
  {
    if m == 0 then 0 else Repeat(m - 1, k) + k
  }

  lemma {:induction false} RepeatIsProduct(m: nat, k: int)
    ensures Repeat(m, k) == m * k
  {
    if m > 0 {
      RepeatIsProduct(m - 1, k);
      assert m * k == (m - 1) * k + k;
    }
  }

  /** A grid never yields more than 2*width*height + width + height rectangles:
      two per cell plus the east column and the south row. */
  lemma AllRectsBound(width: int, height: int, cellSize: real, cells: seq<bv8>)
    requires width >= 0 && height >= 0 && |cells| == width * height
    ensures |AllRects(width, height, cellSize, cells)| <= 2 * (width * height) + width + height
  {
    var rows := Rows(width, height, cells);
    GridRectsBound(width, height, cellSize, rows, height);
    assert RowParts(width, height, cellSize, rows)[..height] == RowParts(width, height, cellSize, rows);
    RepeatIsProduct(height, 2 * width + 1);
    RowsTotal(width, height);
  }

  lemma RowsTotal(width: int, height: int)
    ensures height * (2 * width + 1) == 2 * (width * height) + height
  {
  }

  // ---------------------------------------------------------------- the scan

  function Min(a: int, b: int): int
  {
    if a <= b then a else b
  }

  /** The output buffer holds the first count of the rectangles emitted so far:
      all of them, or as many as fit in maxRects entries. */
  ghost predicate Filled(out: seq<WallRect>, count: int, maxRects: int, emitted: seq<WallRect>)
  {
    && 0 <= count <= |out|
    && count == Min(maxRects, |emitted|)
    && out[..count] == emitted[..count]
  }

  /** Maze_GetWallRects with the capacity test made before every write: 0 for
      no maze, no buffer or no room; otherwise the rectangles of the standing
      walls in scan order, as many as fit. */
  method GetWallRects(maze: Maze?, outRects: array?<WallRect>, maxRects: int) returns (count: int)
    requires maze != null ==> maze.Valid()
    requires outRects != null ==> maxRects <= outRects.Length
    requires maze != null ==> outRects as object? != maze.cells
    modifies outRects
    ensures maze == null || outRects == null || maxRects <= 0 ==> count == 0
    ensures maze != null && outRects != null && maxRects > 0 ==>
      var all := AllRects(maze.width, maze.height, maze.cellSize, maze.cells[..]);
      && count == Min(maxRects, |all|)
      && outRects[..count] == all[..count]
  {
    if maze == null || outRects == null || maxRects <= 0 {
      return 0;
    }
    count := Scan(maze, outRects, maxRects);
  }

  /** The outer loop of the scan: rows top to bottom, while there is room. */
  method Scan(maze: Maze, outRects: array<WallRect>, maxRects: int) returns (count: int)
    requires maze.Valid() && outRects as object != maze.cells && 0 < maxRects <= outRects.Length
    modifies outRects
    ensures var all := AllRects(maze.width, maze.height, maze.cellSize, maze.cells[..]);
      && count == Min(maxRects, |all|)
      && outRects[..count] == all[..count]
  {
    var width, height, cellSize := maze.width, maze.height, maze.cellSize;
    ghost var cells := maze.cells[..];
    ghost var rowParts := RowParts(width, height, cellSize, Rows(width, height, cells));
    count := 0;
    var y := 0;
    ghost var done: seq<WallRect> := [];
    while y < height && count < maxRects
      invariant 0 <= y <= height && maze.cells[..] == cells
      invariant done == Concat(rowParts[..y]) && Filled(outRects[..], count, maxRects, done)
    {
      count := EmitRow(maze, outRects, count, maxRects, y, done, rowParts);
      ConcatStep(rowParts, y);
      done := done + rowParts[y];
      y := y + 1;
    }
    ScanComplete(outRects[..], count, maxRects, rowParts, y);
  }

  /** When the scan stops, after the last row or on a full buffer, the buffer
      holds the first count rectangles of the whole maze. */
  lemma ScanComplete(out: seq<WallRect>, count: int, maxRects: int, parts: seq<seq<WallRect>>, k: int)
    requires 0 <= k <= |parts| && Filled(out, count, maxRects, Concat(parts[..k]))
    requires k == |parts| || count >= maxRects
    ensures Filled(out, count, maxRects, Concat(parts))
  {
    assert parts[..|parts|] == parts;
    if k < |parts| {
      ConcatPrefix(parts, k);
      FilledExtends(out, count, maxRects, Concat(parts[..k]), Concat(parts));
    }
  }

  /** The inner loop of the scan: the cells of row y, left to right, while
      there is room. */
  method EmitRow(maze: Maze, outRects: array<WallRect>, count: int, maxRects: int, y: int,
                 ghost emitted: seq<WallRect>, ghost rowParts: seq<seq<WallRect>>) returns (count': int)
    requires maze.Valid() && 0 <= y < maze.height && outRects as object != maze.cells
    requires maxRects <= outRects.Length && Filled(outRects[..], count, maxRects, emitted)
    requires rowParts == RowParts(maze.width, maze.height, maze.cellSize, Rows(maze.width, maze.height, maze.cells[..]))
    modifies outRects
    ensures Filled(outRects[..], count', maxRects, emitted + rowParts[y])
  {
    var width, height, cellSize := maze.width, maze.height, maze.cellSize;
    ghost var cells := maze.cells[..];
    ghost var cellParts := CellParts(width, height, cellSize, Row(width, height, cells, y), y);
    count' := count;
    var x := 0;
    ghost var done := emitted;
    while x < width && count' < maxRects
      invariant 0 <= x <= width && maze.cells[..] == cells
      invariant done == emitted + Concat(cellParts[..x]) && Filled(outRects[..], count', maxRects, done)
    {
      count' := EmitCell(maze, outRects, count', maxRects, x, y, done);
      RowAt(width, height, cells, x, y);
      ConcatStep(cellParts, x);
      AppendAssoc(emitted, Concat(cellParts[..x]), cellParts[x]);
      done := done + cellParts[x];
      x := x + 1;
    }
    RowComplete(outRects[..], count', maxRects, emitted, cellParts, x);
  }

  /** When a row stops, at its end or on a full buffer, the buffer holds the
      first count rectangles of everything before it and of the whole row. */
  lemma RowComplete(out: seq<WallRect>, count: int, maxRects: int, g: seq<WallRect>,
                    parts: seq<seq<WallRect>>, k: int)
    requires 0 <= k <= |parts| && Filled(out, count, maxRects, g + Concat(parts[..k]))
    requires k == |parts| || count >= maxRects
    ensures Filled(out, count, maxRects, g + Concat(parts))
  {
    assert parts[..|parts|] == parts;
    if k < |parts| {
      ConcatPrefix(parts, k);
      AppendPrefix(g, Concat(parts[..k]), Concat(parts));
      FilledExtends(out, count, maxRects, g + Concat(parts[..k]), g + Concat(parts));
    }
  }

  lemma AppendAssoc(a: seq<WallRect>, b: seq<WallRect>, c: seq<WallRect>)
    ensures a + b + c == a + (b + c)
  {
  }

  /** Extending the tail keeps the shorter sequence a prefix. */
  lemma AppendPrefix(g: seq<WallRect>, a: seq<WallRect>, b: seq<WallRect>)
    requires |a| <= |b| && b[..|a|] == a
    ensures |g + a| <= |g + b| && (g + b)[..|g + a|] == g + a
  {
  }

  /** The body of the scan for cell (x, y): its North and West walls, the East
      wall in the last column and the South wall in the last row, each written
      only while there is room. */
  method EmitCell(maze: Maze, outRects: array<WallRect>, count: int, maxRects: int, x: int, y: int,
                  ghost emitted: seq<WallRect>) returns (count': int)
    requires maze.Valid() && InGrid(maze.width, maze.height, x, y) && outRects as object != maze.cells
    requires maxRects <= outRects.Length && Filled(outRects[..], count, maxRects, emitted)
    modifies outRects
    ensures Filled(outRects[..], count', maxRects,
                   emitted + CellRects(maze.width, maze.height, maze.cellSize,
                                       maze.cells[CellIndex(maze.width, maze.height, x, y)], x, y))
  {
    var width, height, cellSize := maze.width, maze.height, maze.cellSize;
    ghost var idx := CellIndex(width, height, x, y);
    ghost var m := maze.cells[idx];
    HasWallInGrid(width, height, maze.cells[..], x, y);
    var hasNorth := HasWall(width, height, maze.cells[..], x, y, North);
    var hasWest := HasWall(width, height, maze.cells[..], x, y, West);
    var hasEast := x == width - 1 && HasWall(width, height, maze.cells[..], x, y, East);
    var hasSouth := y == height - 1 && HasWall(width, height, maze.cells[..], x, y, South);
    var c := CellToWorld(width, height, cellSize, x, y);
    var half := cellSize * 0.5;
    var north := AlongX(c.x - half, c.y - half, cellSize);
    var west := AlongZ(c.x - half, c.y - half, cellSize);
    var east := AlongZ(c.x + half, c.y - half, cellSize);
    var south := AlongX(c.x - half, c.y + half, cellSize);
    assert Side(hasNorth, north) + Side(hasWest, west) + Side(hasEast, east) + Side(hasSouth, south)
        == CellRects(width, height, cellSize, m, x, y);
    count' := EmitSides(outRects, count, maxRects, hasNorth, north, hasWest, west, hasEast, east,
                        hasSouth, south, emitted);
    assert maze.cells[idx] == m;
  }

  /** The four guarded writes of one cell, in order. */
  method EmitSides(out: array<WallRect>, count: int, maxRects: int,
                   hasNorth: bool, north: WallRect, hasWest: bool, west: WallRect,
                   hasEast: bool, east: WallRect, hasSouth: bool, south: WallRect,
                   ghost emitted: seq<WallRect>) returns (count': int)
    requires maxRects <= out.Length && Filled(out[..], count, maxRects, emitted)
    modifies out
    ensures Filled(out[..], count', maxRects, emitted + (Side(hasNorth, north) + Side(hasWest, west)
                                                        + Side(hasEast, east) + Side(hasSouth, south)))
  {
    ghost var a, b, c, d := Side(hasNorth, north), Side(hasWest, west), Side(hasEast, east), Side(hasSouth, south);
    count' := Put(out, count, maxRects, hasNorth, north, emitted);
    count' := Put(out, count', maxRects, hasWest, west, emitted + a);
    count' := Put(out, count', maxRects, hasEast, east, emitted + a + b);
    count' := Put(out, count', maxRects, hasSouth, south, emitted + a + b + c);
    AppendFour(emitted, a, b, c, d);
  }

  lemma AppendFour(s: seq<WallRect>, a: seq<WallRect>, b: seq<WallRect>, c: seq<WallRect>, d: seq<WallRect>)
    ensures s + a + b + c + d == s + (a + b + c + d)
  {
  }

  /** One write guarded by the wall test and by the capacity test: the
      rectangle goes in when its wall is there and there is room. */
  method Put(out: array<WallRect>, count: int, maxRects: int, present: bool, r: WallRect,
             ghost emitted: seq<WallRect>) returns (count': int)
    requires maxRects <= out.Length && Filled(out[..], count, maxRects, emitted)
    modifies out
    ensures Filled(out[..], count', maxRects, emitted + Side(present, r))
  {
    if present && count < maxRects {
      out[count] := r;
      count' := count + 1;
      assert out[..count'] == out[..count] + [r];
    } else {
      count' := count;
    }
  }

  /** Inside the grid, a wall test reads the cell's own mask. */
  lemma HasWallInGrid(width: int, height: int, cells: seq<bv8>, x: int, y: int)
    requires |cells| == width * height && InGrid(width, height, x, y)
    ensures forall d :: HasWall(width, height, cells, x, y, d) == (cells[CellIndex(width, height, x, y)] & d != 0)
  {
  }

  /** A full buffer stays a correct prefix when more rectangles follow. */
  lemma FilledExtends(out: seq<WallRect>, count: int, maxRects: int, emitted: seq<WallRect>, more: seq<WallRect>)
    requires Filled(out, count, maxRects, emitted) && count == maxRects
    requires |emitted| <= |more| && more[..|emitted|] == emitted
    ensures Filled(out, count, maxRects, more)
  {
    assert more[..count] == more[..|emitted|][..count];
  }

  // ---------------------------------------------------------------- the scan as written

  lemma {:induction false} ConcatCons(parts: seq<seq<WallRect>>)
    requires parts != []
    ensures Concat(parts) == parts[0] + Concat(parts[1..])
    decreases |parts|
  {
    if |parts| > 1 {
      var init, last, rest := parts[..|parts| - 1], parts[|parts| - 1], parts[1..];
      ConcatCons(init);
      assert rest[..|rest| - 1] == init[1..] && rest[|rest| - 1] == last;
      calc {
        Concat(parts);
        Concat(init) + last;
        { assert init[0] == parts[0]; }
        (parts[0] + Concat(init[1..])) + last;
        parts[0] + (Concat(init[1..]) + last);
        parts[0] + Concat(rest);
      }
    } else {
      assert parts[1..] == [];
    }
  }

  /** The inner loop as src/maze.c writes it: the capacity is tested once
      before each cell, and then every wall of that cell is written. */
  function WrittenRow(p: seq<WallRect>, parts: seq<seq<WallRect>>, maxRects: int): seq<WallRect>
    decreases |parts|
  {
    if parts == [] || |p| >= maxRects then p
    else WrittenRow(p + parts[0], parts[1..], maxRects)
  }

  /** The outer loop as written: the capacity is tested once before each row. */
  function WrittenGrid(p: seq<WallRect>, grid: seq<seq<seq<WallRect>>>, maxRects: int): seq<WallRect>
    decreases |grid|
  {
    if grid == [] || |p| >= maxRects then p
    else WrittenGrid(WrittenRow(p, grid[0], maxRects), grid[1..], maxRects)
  }

  /** The cell pieces of every row of the maze. */
  function GridParts(width: int, height: int, cellSize: real, cells: seq<bv8>): (grid: seq<seq<seq<WallRect>>>)
    requires width >= 0 && height >= 0 && |cells| == width * height
    ensures |grid| == height
  {
    seq(height, y requires 0 <= y < height => CellParts(width, height, cellSize, Row(width, height, cells, y), y))
  }

  /** Maze_GetWallRects exactly as src/maze.c writes it: the sequence of
      rectangles it stores, whose length is the count it returns. */
  function AsWritten(width: int, height: int, cellSize: real, cells: seq<bv8>, maxRects: int): seq<WallRect>
    requires width >= 0 && height >= 0 && |cells| == width * height
  {
    if maxRects <= 0 then [] else WrittenGrid([], GridParts(width, height, cellSize, cells), maxRects)
  }

  /** A single cell with all four walls and room for one rectangle: the code as
      written stores four, three past the end of the buffer. */
  lemma AsWrittenOverflows()
    ensures var r := AsWritten(1, 1, 3.0, [AllWalls], 1); |r| == 4 && |r| > 1
  {
    var rects := CellRects(1, 1, 3.0, AllWalls, 0, 0);
    assert |rects| == 4;
    var grid := GridParts(1, 1, 3.0, [AllWalls]);
    assert Row(1, 1, [AllWalls], 0) == [AllWalls];
    var parts := CellParts(1, 1, 3.0, [AllWalls], 0);
    assert parts[0] == rects;
    assert parts == [rects];
    assert grid == [[rects]];
    assert WrittenRow([], [rects], 1) == rects by {
      assert [rects][1..] == [];
    }
    assert grid[1..] == [];
    assert WrittenGrid([], grid, 1) == WrittenGrid(rects, [], 1) == rects;
  }

  /** With a buffer too small, the code as written overruns it by at most three
      rectangles: the capacity test passes with one entry left, and a cell holds
      at most four walls. */
  lemma {:induction false} WrittenRowOverrun(p: seq<WallRect>, parts: seq<seq<WallRect>>, maxRects: int)
    requires |p| <= maxRects + 3 && forall i | 0 <= i < |parts| :: |parts[i]| <= 4
    ensures |WrittenRow(p, parts, maxRects)| <= maxRects + 3
    decreases |parts|
  {
    if parts != [] && |p| < maxRects {
      WrittenRowOverrun(p + parts[0], parts[1..], maxRects);
    }
  }

  lemma {:induction false} WrittenGridOverrun(p: seq<WallRect>, grid: seq<seq<seq<WallRect>>>, maxRects: int)
    requires |p| <= maxRects + 3
    requires forall y, i | 0 <= y < |grid| && 0 <= i < |grid[y]| :: |grid[y][i]| <= 4
    ensures |WrittenGrid(p, grid, maxRects)| <= maxRects + 3
    decreases |grid|
  {
    if grid != [] && |p| < maxRects {
      WrittenRowOverrun(p, grid[0], maxRects);
      WrittenGridOverrun(WrittenRow(p, grid[0], maxRects), grid[1..], maxRects);
    }
  }

  lemma AsWrittenOverrun(width: int, height: int, cellSize: real, cells: seq<bv8>, maxRects: int)
    requires width >= 0 && height >= 0 && |cells| == width * height
    ensures |AsWritten(width, height, cellSize, cells, maxRects)| <= if maxRects > 0 then maxRects + 3 else 0
  {
    if maxRects > 0 {
      var grid := GridParts(width, height, cellSize, cells);
      forall y, i | 0 <= y < |grid| && 0 <= i < |grid[y]|
        ensures |grid[y][i]| <= 4
      {
        var row := Row(width, height, cells, y);
        CellRectsCount(width, height, cellSize, row[i], i, y);
      }
      WrittenGridOverrun([], grid, maxRects);
    }
  }

  /** With room for every rectangle, the code as written stores exactly what
      the corrected scan stores. */
  lemma {:induction false} WrittenRowRoomy(p: seq<WallRect>, parts: seq<seq<WallRect>>, maxRects: int)
    requires |p + Concat(parts)| <= maxRects
    ensures WrittenRow(p, parts, maxRects) == p + Concat(parts)
    decreases |parts|
  {
    if parts == [] {
    } else {
      ConcatCons(parts);
      if |p| < maxRects {
        WrittenRowRoomy(p + parts[0], parts[1..], maxRects);
      } else {
        assert Concat(parts) == [];
      }
    }
  }

  /** Each row laid out end to end. */
  function Flatten(grid: seq<seq<seq<WallRect>>>): (rows: seq<seq<WallRect>>)
    ensures |rows| == |grid|
  {
    seq(|grid|, y requires 0 <= y < |grid| => Concat(grid[y]))
  }

  lemma {:induction false} WrittenGridRoomy(p: seq<WallRect>, grid: seq<seq<seq<WallRect>>>, maxRects: int)
    requires |p + Concat(Flatten(grid))| <= maxRects
    ensures WrittenGrid(p, grid, maxRects) == p + Concat(Flatten(grid))
    decreases |grid|
  {
    if grid == [] {
    } else {
      var rows := Flatten(grid);
      var head, tail := Concat(grid[0]), Concat(Flatten(grid[1..]));
      ConcatCons(rows);
      assert rows[0] == head && rows[1..] == Flatten(grid[1..]);
      assert p + Concat(rows) == (p + head) + tail;
      if |p| < maxRects {
        WrittenRowRoomy(p, grid[0], maxRects);
        WrittenGridRoomy(p + head, grid[1..], maxRects);
      } else {
        assert Concat(rows) == [];
      }
    }
  }

  /** The corrected scan agrees with the code as written whenever the buffer
      has room for every wall, as it has in the game. */
  lemma AsWrittenRoomy(width: int, height: int, cellSize: real, cells: seq<bv8>, maxRects: int)
    requires width >= 0 && height >= 0 && |cells| == width * height
    requires 0 < maxRects && |AllRects(width, height, cellSize, cells)| <= maxRects
    ensures AsWritten(width, height, cellSize, cells, maxRects) == AllRects(width, height, cellSize, cells)
  {
    var grid := GridParts(width, height, cellSize, cells);
    assert Flatten(grid) == RowParts(width, height, cellSize, Rows(width, height, cells));
    WrittenGridRoomy([], grid, maxRects);
  }
}
