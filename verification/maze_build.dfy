/** The maze object of src/maze.c: creation with every wall standing, and the
    randomized depth-first carving that turns it into a perfect maze. The C
    `rand()` is the oracle `rand`, read at the consecutive call numbers k,
    k + 1, ...; every method that draws from it returns the next call number.
    A failed allocation is an oracle flag. */
module MazeBuild {
  import opened MazeFlags
  import opened MazeGrid
  import opened MazeTopology
  import opened MazeSearch

  class Maze {
    const width: int
    const height: int
    const cellSize: real
    /** One wall mask per cell, row-major. The buffer is fixed; its bytes change. */
    const cells: array<bv8>
    var startPos: Cell
    var exitPos: Cell

    ghost predicate Valid()
      reads this, cells
    {
      && width >= 1 && height >= 1 && cellSize > 0.0
      && cells.Length == width * height
      && WellFormed(width, height, cells[..])
      && InGrid(width, height, startPos.x, startPos.y)
      && InGrid(width, height, exitPos.x, exitPos.y)
    }

    /** The successful path of Maze_Create: every cell gets all four walls, the
        start is the north-west corner and the exit the south-east corner. */
    constructor (width: int, height: int, cellSize: real)
      requires width >= 1 && height >= 1 && cellSize > 0.0
      ensures Valid() && fresh(cells)
      ensures this.width == width && this.height == height && this.cellSize == cellSize
      ensures AllClosed(cells[..])
      ensures startPos == Cell(0, 0) && exitPos == Cell(width - 1, height - 1)
    {
      this.width := width;
      this.height := height;
      this.cellSize := cellSize;
      var a := new bv8[width * height];
      for i := 0 to width * height
        invariant forall j | 0 <= j < i :: a[j] == AllWalls
      {
        a[i] := AllWalls;
      }
      cells := a;
      startPos := Cell(0, 0);
      exitPos := Cell(width - 1, height - 1);
      new;
      AllClosedIsWellFormed(width, height, cells[..]);
    }

    /** Maze_Generate: carve passages by depth-first search with an explicit
        stack, starting at (0, 0). The search only ever opens walls and keeps
        the shape. When it can allocate its two work buffers and starts from a
        fully walled grid (as Maze_Create leaves it), the result is a perfect
        maze: width*height - 1 passages and every cell reachable from the start. */
    method Generate(rand: nat -> nat, k0: nat, visitedAllocates: bool, stackAllocates: bool) returns (k: nat)
      requires Valid()
      modifies cells
      ensures Valid()
      ensures OnlyOpens(width, height, old(cells[..]), cells[..])
      ensures !(visitedAllocates && stackAllocates) ==> cells[..] == old(cells[..])
      ensures visitedAllocates && stackAllocates && old(AllClosed(cells[..])) ==> Perfect(width, height, cells[..])
    {
      k := k0;
      ghost var cells0 := cells[..];
      ghost var closed0 := AllClosed(cells0);
      if !visitedAllocates {
        return;
      }
      var visited := new bool[width * height](_ => false);
      if !stackAllocates {
        return;
      }
      var stack := new Cell[width * height](_ => Cell(0, 0));
      var stackTop := 0;

      visited[CellIndex(width, height, 0, 0)] := true;
      stack[stackTop] := Cell(0, 0);
      stackTop := stackTop + 1;
      assert visited[..] == seq(width * height, i => i == 0);
      assert stack[..stackTop] == [Cell(0, 0)];
      LoopInit(width, height, cells0);

      while stackTop > 0
        invariant 0 <= stackTop <= stack.Length == width * height == visited.Length
        invariant cells as object != visited && cells as object != stack && visited as object != stack
        invariant LoopInvariant(width, height, cells0, closed0, cells[..], visited[..], stack[..stackTop])
        decreases width * height - CountTrue(visited[..]), stackTop
      {
        stackTop, k := SearchStep(width, height, cells, visited, stack, stackTop, rand, k, cells0, closed0);
      }
      if closed0 {
        InvariantFinal(width, height, cells[..], visited[..]);
      }
    }
  }

  /** One iteration of the search loop of Maze_Generate: look at the cell on top
      of the stack; carve into a random unvisited neighbour and push it, or pop
      the cell when it has none. */
  method SearchStep(width: int, height: int, cells: array<bv8>, visited: array<bool>, stack: array<Cell>,
                    stackTop: int, rand: nat -> nat, k: nat, ghost cells0: seq<bv8>, ghost closed0: bool)
    returns (stackTop': int, k': nat)
    requires cells.Length == visited.Length == stack.Length == width * height
    requires cells as object != visited && cells as object != stack && visited as object != stack
    requires 0 < stackTop <= stack.Length
    requires LoopInvariant(width, height, cells0, closed0, cells[..], visited[..], stack[..stackTop])
    modifies cells, visited, stack
    ensures 0 <= stackTop' <= stack.Length && k' == k + 3
    ensures LoopInvariant(width, height, cells0, closed0, cells[..], visited[..], stack[..stackTop'])
    ensures || old(CountTrue(visited[..])) < CountTrue(visited[..]) <= visited.Length
            || (CountTrue(visited[..]) == old(CountTrue(visited[..])) && stackTop' < stackTop)
  {
    var x, y := stack[stackTop - 1].x, stack[stackTop - 1].y;
    var found, dir;
    found, dir, k' := GetRandomNeighbor(width, height, visited[..], x, y, rand, k);
    ghost var before, visitedBefore, stackBefore := cells[..], visited[..], stack[..stackTop];
    assert stackBefore[|stackBefore| - 1] == Cell(x, y);
    if found {
      var dirIdx := DirectionIndex(dir);
      TablesAligned(dirIdx);
      assert PushStep(width, height, before, visitedBefore, stackBefore, dirIdx);
      stackTop' := Forward(width, height, cells, visited, stack, stackTop, x, y, dirIdx, cells0, closed0);
    } else {
      stackTop' := stackTop - 1;
      LoopPop(width, height, cells0, closed0, before, visitedBefore, stackBefore, stack[..stackTop']);
    }
  }

  /** The carving branch of the search loop, with the loop invariant carried
      across it: one more cell is visited. */
  method Forward(width: int, height: int, cells: array<bv8>, visited: array<bool>, stack: array<Cell>,
                 stackTop: int, x: int, y: int, dirIdx: int, ghost cells0: seq<bv8>, ghost closed0: bool)
    returns (stackTop': int)
    requires cells.Length == visited.Length == stack.Length == width * height
    requires cells as object != visited && cells as object != stack && visited as object != stack
    requires 0 < stackTop <= stack.Length && stack[stackTop - 1] == Cell(x, y)
    requires LoopInvariant(width, height, cells0, closed0, cells[..], visited[..], stack[..stackTop])
    requires PushStep(width, height, cells[..], visited[..], stack[..stackTop], dirIdx)
    modifies cells, visited, stack
    ensures 0 <= stackTop' <= stack.Length
    ensures LoopInvariant(width, height, cells0, closed0, cells[..], visited[..], stack[..stackTop'])
    ensures old(CountTrue(visited[..])) < CountTrue(visited[..]) <= visited.Length
  {
    ghost var before, visitedBefore, stackBefore := cells[..], visited[..], stack[..stackTop];
    assert stackBefore[|stackBefore| - 1] == Cell(x, y);
    RoomToPush(width, height, before, visitedBefore, stackBefore, dirIdx);
    stackTop' := PushNeighbour(width, height, cells, visited, stack, stackTop, x, y, dirIdx);
    LoopPush(width, height, cells0, closed0, before, visitedBefore, stackBefore, dirIdx,
             cells[..], visited[..], stack[..stackTop']);
  }

  /** One forward step of Maze_Generate: knock down the wall between (x, y) and
      its neighbour in direction Dirs[k] on both sides, mark the neighbour
      visited and push it. */
  method PushNeighbour(width: int, height: int, cells: array<bv8>, visited: array<bool>, stack: array<Cell>,
                       stackTop: int, x: int, y: int, k: int) returns (stackTop': int)
    requires cells.Length == visited.Length == stack.Length == width * height
    requires cells as object != visited && cells as object != stack && visited as object != stack
    requires 0 <= stackTop < stack.Length && 0 <= k < 4
    requires InGrid(width, height, x, y) && InGrid(width, height, x + DX[k], y + DY[k])
    modifies cells, visited, stack
    ensures stackTop' == stackTop + 1
    ensures cells[..] == Carve(width, height, old(cells[..]), x, y, k)
    ensures visited[..] == old(visited[..])[CellIndex(width, height, x + DX[k], y + DY[k]) := true]
    ensures stack[..stackTop'] == old(stack[..stackTop]) + [Cell(x + DX[k], y + DY[k])]
  {
    var nx, ny := x + DX[k], y + DY[k];
    var currIdx := CellIndex(width, height, x, y);
    var nextIdx := CellIndex(width, height, nx, ny);
    cells[currIdx] := cells[currIdx] & !Dirs[k];
    cells[nextIdx] := cells[nextIdx] & !Opposite[k];
    visited[nextIdx] := true;
    stack[stackTop] := Cell(nx, ny);
    stackTop' := stackTop + 1;
  }

  /** Maze_Create: no maze for a grid without cells or a cell size that is not
      positive, nor when either allocation fails; otherwise a fresh, fully
      walled maze. */
  method Create(width: int, height: int, cellSize: real, mazeAllocates: bool, cellsAllocate: bool)
    returns (m: Maze?)
    ensures m == null <==> width < 1 || height < 1 || cellSize <= 0.0 || !mazeAllocates || !cellsAllocate
    ensures m != null ==>
      && fresh(m) && fresh(m.cells) && m.Valid()
      && m.width == width && m.height == height && m.cellSize == cellSize
      && AllClosed(m.cells[..])
      && m.startPos == Cell(0, 0) && m.exitPos == Cell(width - 1, height - 1)
  {
    if width < 1 || height < 1 || cellSize <= 0.0 {
      return null;
    }
    if !mazeAllocates || !cellsAllocate {
      return null;
    }
    m := new Maze(width, height, cellSize);
  }

  /** GetRandomNeighbor: shuffle the four directions with three draws of
      `rand`, then report the first one that leads to an in-grid, unvisited
      cell. It finds one exactly when such a neighbour exists. */
  method GetRandomNeighbor(width: int, height: int, visited: seq<bool>, x: int, y: int, rand: nat -> nat, k: nat)
    returns (found: bool, dir: bv8, k': nat)
    requires |visited| == width * height
    ensures k' == k + 3
    ensures found == HasUnvisitedNeighbor(width, height, visited, x, y)
    ensures found ==>
      IsDirection(dir) && IsValidUnvisited(width, height, visited, x + DeltaX(dir), y + DeltaY(dir))
  {
    var dirs := new bv8[4] [North, East, South, West];
    var dx := new int[4] [0, 1, 0, -1];
    var dy := new int[4] [-1, 0, 1, 0];
    InitialTablesAligned(dirs[..], dx[..], dy[..]);
    k' := Shuffle(dirs, dx, dy, rand, k);
    var ds, xs, ys := dirs[..], dx[..], dy[..];
    var i := FirstOpen(width, height, visited, x, y, xs, ys);
    if i < 4 {
      DirectionLeadsOut(width, height, visited, x, y, ds, xs, ys, i);
      found, dir := true, ds[i];
    } else {
      NoDirectionLeadsOut(width, height, visited, x, y, ds, xs, ys);
      found, dir := false, 0;
    }
  }

  /** The scan of GetRandomNeighbor: the first entry of the (shuffled) step
      tables that leads to an in-grid, unvisited cell, or 4 when none does. */
  method FirstOpen(width: int, height: int, visited: seq<bool>, x: int, y: int, dx: seq<int>, dy: seq<int>)
    returns (i: int)
    requires |visited| == width * height && |dx| == 4 && |dy| == 4
    ensures 0 <= i <= 4
    ensures forall j | 0 <= j < i :: !IsValidUnvisited(width, height, visited, x + dx[j], y + dy[j])
    ensures i < 4 ==> IsValidUnvisited(width, height, visited, x + dx[i], y + dy[i])
  {
    i := 0;
    while i < 4
      invariant 0 <= i <= 4
      invariant forall j | 0 <= j < i :: !IsValidUnvisited(width, height, visited, x + dx[j], y + dy[j])
    {
      if IsValidUnvisited(width, height, visited, x + dx[i], y + dy[i]) {
        return;
      }
      i := i + 1;
    }
  }

  /** The shuffle of GetRandomNeighbor: for i from 3 down to 1, exchange entry
      i with entry rand() % (i + 1) in all three tables alike. */
  method Shuffle(dirs: array<bv8>, dx: array<int>, dy: array<int>, rand: nat -> nat, k: nat) returns (k': nat)
    requires Aligned(dirs[..], dx[..], dy[..]) && multiset(dirs[..]) == multiset(Dirs)
    requires dx != dy && dirs as object != dx && dirs as object != dy
    modifies dirs, dx, dy
    ensures Aligned(dirs[..], dx[..], dy[..]) && multiset(dirs[..]) == multiset(Dirs)
    ensures k' == k + 3
  {
    k' := k;
    var i := 3;
    while i > 0
      invariant 0 <= i <= 3 && k' == k + (3 - i)
      invariant Aligned(dirs[..], dx[..], dy[..])
      invariant multiset(dirs[..]) == multiset(Dirs)
    {
      var j := rand(k') % (i + 1);
      k' := k' + 1;
      ghost var dirs0, dx0, dy0 := dirs[..], dx[..], dy[..];
      Swap(dirs, i, j);
      Swap(dx, i, j);
      Swap(dy, i, j);
      SwapKeepsAligned(dirs0, dx0, dy0, i, j);
      i := i - 1;
    }
  }

  lemma InitialTablesAligned(dirs: seq<bv8>, dx: seq<int>, dy: seq<int>)
    requires dirs == [North, East, South, West] && dx == [0, 1, 0, -1] && dy == [-1, 0, 1, 0]
    ensures Aligned(dirs, dx, dy) && multiset(dirs) == multiset(Dirs)
  {
  }

  /** Entry j of the three direction tables describes the same direction. */
  ghost predicate Aligned(dirs: seq<bv8>, dx: seq<int>, dy: seq<int>)
  {
    && |dirs| == 4 && |dx| == 4 && |dy| == 4
    && forall j | 0 <= j < 4 :: dx[j] == DeltaX(dirs[j]) && dy[j] == DeltaY(dirs[j])
  }

  function Swapped<T>(s: seq<T>, i: int, j: int): (r: seq<T>)
    requires 0 <= i < |s| && 0 <= j < |s|
    ensures |r| == |s| && multiset(r) == multiset(s)
    ensures r[i] == s[j] && r[j] == s[i]
    ensures forall m | 0 <= m < |s| && m != i && m != j :: r[m] == s[m]
  {
    s[i := s[j]][j := s[i]]
  }

  /** The three-assignment exchange through a temporary. */
  method Swap<T>(a: array<T>, i: int, j: int)
    requires 0 <= i < a.Length && 0 <= j < a.Length
    modifies a
    ensures a[..] == Swapped(old(a[..]), i, j)
  {
    var temp := a[i];
    a[i] := a[j];
    a[j] := temp;
  }

  /** Swapping the same two entries of all three tables keeps them aligned. */
  lemma SwapKeepsAligned(dirs: seq<bv8>, dx: seq<int>, dy: seq<int>, i: int, j: int)
    requires Aligned(dirs, dx, dy) && 0 <= i < 4 && 0 <= j < 4
    ensures Aligned(Swapped(dirs, i, j), Swapped(dx, i, j), Swapped(dy, i, j))
  {
  }

  /** An entry of a shuffled direction table that leads to an unvisited cell
      is a direction flag, and the cell has an unvisited neighbour. */
  lemma DirectionLeadsOut(width: int, height: int, visited: seq<bool>, x: int, y: int,
                          dirs: seq<bv8>, dx: seq<int>, dy: seq<int>, i: int)
    requires |visited| == width * height && 0 <= i < 4
    requires Aligned(dirs, dx, dy) && multiset(dirs) == multiset(Dirs)
    requires IsValidUnvisited(width, height, visited, x + dx[i], y + dy[i])
    ensures IsDirection(dirs[i])
    ensures IsValidUnvisited(width, height, visited, x + DeltaX(dirs[i]), y + DeltaY(dirs[i]))
    ensures HasUnvisitedNeighbor(width, height, visited, x, y)
  {
    assert dirs[i] in multiset(Dirs);
  }

  /** When no entry of a shuffled direction table leads to an unvisited cell,
      the cell has no unvisited neighbour at all. */
  lemma NoDirectionLeadsOut(width: int, height: int, visited: seq<bool>, x: int, y: int,
                            dirs: seq<bv8>, dx: seq<int>, dy: seq<int>)
    requires |visited| == width * height
    requires Aligned(dirs, dx, dy) && multiset(dirs) == multiset(Dirs)
    requires forall j | 0 <= j < 4 :: !IsValidUnvisited(width, height, visited, x + dx[j], y + dy[j])
    ensures !HasUnvisitedNeighbor(width, height, visited, x, y)
  {
    var n := TableEntry(dirs, dx, dy, North);
    var e := TableEntry(dirs, dx, dy, East);
    var s := TableEntry(dirs, dx, dy, South);
    var w := TableEntry(dirs, dx, dy, West);
    assert !IsValidUnvisited(width, height, visited, x + dx[n], y + dy[n]);
    assert !IsValidUnvisited(width, height, visited, x + dx[e], y + dy[e]);
    assert !IsValidUnvisited(width, height, visited, x + dx[s], y + dy[s]);
    assert !IsValidUnvisited(width, height, visited, x + dx[w], y + dy[w]);
  }

  /** Every direction flag has an entry in a shuffled table, with its steps. */
  lemma TableEntry(dirs: seq<bv8>, dx: seq<int>, dy: seq<int>, d: bv8) returns (j: int)
    requires Aligned(dirs, dx, dy) && multiset(dirs) == multiset(Dirs)
    requires d == North || d == East || d == South || d == West
    ensures 0 <= j < 4 && dx[j] == DeltaX(d) && dy[j] == DeltaY(d)
  {
    assert d in multiset(Dirs) by {
      assert Dirs[0] == North && Dirs[1] == East && Dirs[2] == South && Dirs[3] == West;
      assert d in Dirs;
    }
    assert d in dirs;
    j :| 0 <= j < 4 && dirs[j] == d;
  }

  /** The lookup of a direction flag in the direction table: its position, or
      0 for a value that is not one of the four flags. */
  method DirectionIndex(dir: bv8) returns (dirIdx: int)
    ensures IsDirection(dir) ==> 0 <= dirIdx < 4 && Dirs[dirIdx] == dir
    ensures !IsDirection(dir) ==> dirIdx == 0
  {
    dirIdx := 0;
    for i := 0 to 4
      invariant forall j | 0 <= j < i :: Dirs[j] != dir
    {
      if Dirs[i] == dir {
        return i;
      }
    }
    assert Dirs[0] != dir && Dirs[1] != dir && Dirs[2] != dir && Dirs[3] != dir;
  }
}
