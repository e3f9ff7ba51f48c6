/** The invariant of the explicit-stack depth-first search of Maze_Generate
    (src/maze.c), stated over the mask bytes, the visited flags and the stack
    as sequences, with one lemma for each step the search takes. */
module MazeSearch {
  import opened MazeFlags
  import opened MazeGrid
  import opened MazeTopology

  /** What holds of every search, whatever the masks were at entry: the shape
      is kept, every stacked cell is in the grid and visited, and the stack is
      never deeper than the number of visited cells (so it fits its buffer). */
  ghost predicate Searching(width: int, height: int, cells: seq<bv8>, visited: seq<bool>, stack: seq<Cell>)
  {
    && WellFormed(width, height, cells)
    && |visited| == width * height
    && (forall i | 0 <= i < |stack| ::
          InGrid(width, height, stack[i].x, stack[i].y) &&
          visited[CellIndex(width, height, stack[i].x, stack[i].y)])
    && |stack| <= CountTrue(visited)
  }

  /** The search invariant when the search starts from a fully walled grid:
      - an unvisited cell still has all four walls;
      - there is one passage fewer than there are visited cells;
      - every visited cell reaches the start through the passages;
      - a visited cell with an unvisited neighbour is still on the stack. */
  ghost predicate Invariant(width: int, height: int, cells: seq<bv8>, visited: seq<bool>, stack: seq<Cell>)
  {
    && Searching(width, height, cells, visited, stack)
    && visited[0]
    && UnvisitedClosed(cells, visited)
    && PassageCount(cells) + 1 == CountTrue(visited)
    && AllConnected(width, height, cells, visited, CountTrue(visited) - 1)
    && Frontier(width, height, visited, stack)
  }

  /** (x, y) is in the grid and marked visited. */
  ghost predicate Visited(width: int, height: int, visited: seq<bool>, x: int, y: int)
    requires |visited| == width * height
  {
    InGrid(width, height, x, y) && visited[CellIndex(width, height, x, y)]
  }

  ghost predicate UnvisitedClosed(cells: seq<bv8>, visited: seq<bool>)
    requires |cells| == |visited|
  {
    forall i | 0 <= i < |cells| && !visited[i] :: cells[i] == AllWalls
  }

  ghost predicate AllConnected(width: int, height: int, cells: seq<bv8>, visited: seq<bool>, len: nat)
    requires |cells| == width * height && |visited| == width * height
  {
    forall x, y | Visited(width, height, visited, x, y) ::
      Connected(width, height, cells, x, y, len)
  }

  ghost predicate Frontier(width: int, height: int, visited: seq<bool>, stack: seq<Cell>)
    requires |visited| == width * height
  {
    forall x, y | Visited(width, height, visited, x, y) &&
      HasUnvisitedNeighbor(width, height, visited, x, y) :: Cell(x, y) in stack
  }

  /** The wall between two adjacent cells is seen from both sides. */
  lemma WallSeenFromBothSides(width: int, height: int, cells: seq<bv8>, x: int, y: int, k: int)
    requires |cells| == width * height && Symmetric(width, height, cells) && 0 <= k < 4
    requires InGrid(width, height, x, y) && InGrid(width, height, x + DX[k], y + DY[k])
    ensures HasWall(width, height, cells, x, y, Dirs[k]) ==
            HasWall(width, height, cells, x + DX[k], y + DY[k], Opposite[k])
  {
    if k == 0 {
      assert HasWall(width, height, cells, x, y - 1, South) == HasWall(width, height, cells, x, y - 1 + 1, North);
    } else if k == 1 {
      assert HasWall(width, height, cells, x, y, East) == HasWall(width, height, cells, x + 1, y, West);
    } else if k == 2 {
      assert HasWall(width, height, cells, x, y, South) == HasWall(width, height, cells, x, y + 1, North);
    } else {
      assert HasWall(width, height, cells, x - 1, y, East) == HasWall(width, height, cells, x - 1 + 1, y, West);
    }
  }

  /** Clearing one flag opens an east or south passage exactly when that flag
      was the east or south wall and was set. */
  lemma OpeningsClear(m: bv8, d: bv8)
    requires IsDirection(d)
    ensures Openings(m & !d) == Openings(m) + (if (d == East || d == South) && m & d != 0 then 1 else 0)
  {
  }

  /** Carving from a cell into a fully walled neighbour adds exactly one passage. */
  lemma CarveAddsOnePassage(width: int, height: int, cells: seq<bv8>, x: int, y: int, k: int)
    requires WellFormed(width, height, cells) && 0 <= k < 4
    requires InGrid(width, height, x, y) && InGrid(width, height, x + DX[k], y + DY[k])
    requires cells[CellIndex(width, height, x + DX[k], y + DY[k])] == AllWalls
    ensures PassageCount(Carve(width, height, cells, x, y, k)) == PassageCount(cells) + 1
  {
    var nx, ny := x + DX[k], y + DY[k];
    var c := CellIndex(width, height, x, y);
    var n := CellIndex(width, height, nx, ny);
    SameCellSameIndex(width, height, x, y, nx, ny);
    TablesAligned(k);
    WallSeenFromBothSides(width, height, cells, x, y, k);
    assert cells[c] & Dirs[k] != 0;
    var first := cells[c := cells[c] & !Dirs[k]];
    PassageCountUpdate(cells, c, cells[c] & !Dirs[k]);
    PassageCountUpdate(first, n, AllWalls & !Opposite[k]);
    OpeningsClear(cells[c], Dirs[k]);
    OpeningsClear(AllWalls, Opposite[k]);
    assert Carve(width, height, cells, x, y, k) == first[n := AllWalls & !Opposite[k]];
  }

  /** A carve only opens walls. */
  lemma CarveOnlyOpens(width: int, height: int, cells: seq<bv8>, x: int, y: int, k: int)
    requires |cells| == width * height && 0 <= k < 4
    requires InGrid(width, height, x, y) && InGrid(width, height, x + DX[k], y + DY[k])
    ensures OnlyOpens(width, height, cells, Carve(width, height, cells, x, y, k))
  {
    forall x', y', d | IsDirection(d) && !HasWall(width, height, cells, x', y', d)
      ensures !HasWall(width, height, Carve(width, height, cells, x, y, k), x', y', d)
    {
      CarveEffect(width, height, cells, x, y, k, x', y', d);
    }
  }

  lemma OnlyOpensTransitive(width: int, height: int, a: seq<bv8>, b: seq<bv8>, c: seq<bv8>)
    requires |a| == width * height && |b| == width * height && |c| == width * height
    requires OnlyOpens(width, height, a, b) && OnlyOpens(width, height, b, c)
    ensures OnlyOpens(width, height, a, c)
  {
  }

  /** A cell whose wall towards a connected neighbour is open is connected one
      step further out. */
  lemma ConnectedThroughOpening(width: int, height: int, cells: seq<bv8>, x: int, y: int, k: int, len: nat)
    requires |cells| == width * height && 0 <= k < 4
    requires Connected(width, height, cells, x, y, len)
    requires !HasWall(width, height, cells, x + DX[k], y + DY[k], Opposite[k])
    ensures Connected(width, height, cells, x + DX[k], y + DY[k], len + 1)
  {
    if k == 0 {
      assert Connected(width, height, cells, x, y - 1 + 1, len);
    } else if k == 1 {
      assert Connected(width, height, cells, x + 1 - 1, y, len);
    } else if k == 2 {
      assert Connected(width, height, cells, x, y + 1 - 1, len);
    } else {
      assert Connected(width, height, cells, x - 1 + 1, y, len);
    }
  }

  /** The search starts with only the start cell visited and on the stack. */
  lemma InvariantInit(width: int, height: int, cells: seq<bv8>)
    requires WellFormed(width, height, cells) && AllClosed(cells)
    ensures Invariant(width, height, cells, seq(width * height, i => i == 0), [Cell(0, 0)])
  {
    var visited := seq(width * height, i => i == 0);
    CountTrueSingle(width * height);
    ClosedHasNoPassages(cells);
    forall x, y | Visited(width, height, visited, x, y)
      ensures x == 0 && y == 0
    {
      SameCellSameIndex(width, height, x, y, 0, 0);
    }
  }

  /** The fields a push produces. */
  ghost predicate PushStep(width: int, height: int, cells: seq<bv8>, visited: seq<bool>, stack: seq<Cell>, k: int)
  {
    && Searching(width, height, cells, visited, stack)
    && |stack| > 0 && 0 <= k < 4
    && var top := stack[|stack| - 1];
       InGrid(width, height, top.x + DX[k], top.y + DY[k]) &&
       !visited[CellIndex(width, height, top.x + DX[k], top.y + DY[k])]
  }

  /** Carving from the top of the stack into an unvisited neighbour, marking it
      and pushing it keeps the shared part of the invariant. */
  lemma SearchingPush(width: int, height: int, cells: seq<bv8>, visited: seq<bool>, stack: seq<Cell>, k: int)
    requires PushStep(width, height, cells, visited, stack, k)
    ensures var top := stack[|stack| - 1];
      var nx, ny := top.x + DX[k], top.y + DY[k];
      && CountTrue(visited) < |visited|
      && Searching(width, height, Carve(width, height, cells, top.x, top.y, k),
                   visited[CellIndex(width, height, nx, ny) := true], stack + [Cell(nx, ny)])
      && CountTrue(visited[CellIndex(width, height, nx, ny) := true]) == CountTrue(visited) + 1
  {
    var top := stack[|stack| - 1];
    var nx, ny := top.x + DX[k], top.y + DY[k];
    var n := CellIndex(width, height, nx, ny);
    var visited' := visited[n := true];
    var stack' := stack + [Cell(nx, ny)];
    CountTrueBounds(visited);
    CountTrueUpdate(visited, n);
    CarvePreservesShape(width, height, cells, top.x, top.y, k);
    forall i | 0 <= i < |stack'|
      ensures InGrid(width, height, stack'[i].x, stack'[i].y) &&
              visited'[CellIndex(width, height, stack'[i].x, stack'[i].y)]
    {
      if i < |stack| {
        assert stack'[i] == stack[i];
      }
    }
  }

  /** The full invariant survives a push. */
  lemma InvariantPush(width: int, height: int, cells: seq<bv8>, visited: seq<bool>, stack: seq<Cell>, k: int)
    requires Invariant(width, height, cells, visited, stack)
    requires PushStep(width, height, cells, visited, stack, k)
    ensures var top := stack[|stack| - 1];
      var nx, ny := top.x + DX[k], top.y + DY[k];
      Invariant(width, height, Carve(width, height, cells, top.x, top.y, k),
                visited[CellIndex(width, height, nx, ny) := true], stack + [Cell(nx, ny)])
  {
    var top := stack[|stack| - 1];
    var x, y := top.x, top.y;
    var nx, ny := x + DX[k], y + DY[k];
    var n := CellIndex(width, height, nx, ny);
    var cells' := Carve(width, height, cells, x, y, k);
    var visited' := visited[n := true];
    var stack' := stack + [Cell(nx, ny)];
    assert visited[CellIndex(width, height, x, y)] by {
      assert stack[|stack| - 1] == top;
    }
    SearchingPush(width, height, cells, visited, stack, k);
    assert Searching(width, height, cells', visited', stack');
    assert CountTrue(visited') == CountTrue(visited) + 1;
    PushKeepsClosed(width, height, cells, visited, x, y, k);
    assert cells[n] == AllWalls;
    CarveAddsOnePassage(width, height, cells, x, y, k);
    assert PassageCount(cells') + 1 == CountTrue(visited');
    PushKeepsConnected(width, height, cells, visited, x, y, k, CountTrue(visited) - 1);
    assert AllConnected(width, height, cells', visited', CountTrue(visited') - 1);
    PushKeepsFrontier(width, height, visited, stack, nx, ny);
    assert visited'[0];
    assert Invariant(width, height, cells', visited', stack');
  }

  lemma PushKeepsClosed(width: int, height: int, cells: seq<bv8>, visited: seq<bool>, x: int, y: int, k: int)
    requires |cells| == width * height && |visited| == width * height && 0 <= k < 4
    requires InGrid(width, height, x, y) && InGrid(width, height, x + DX[k], y + DY[k])
    requires visited[CellIndex(width, height, x, y)]
    requires UnvisitedClosed(cells, visited)
    ensures UnvisitedClosed(Carve(width, height, cells, x, y, k),
                            visited[CellIndex(width, height, x + DX[k], y + DY[k]) := true])
  {
  }

  lemma PushKeepsConnected(width: int, height: int, cells: seq<bv8>, visited: seq<bool>, x: int, y: int, k: int, len: nat)
    requires |cells| == width * height && |visited| == width * height && 0 <= k < 4
    requires InGrid(width, height, x, y) && InGrid(width, height, x + DX[k], y + DY[k])
    requires visited[CellIndex(width, height, x, y)]
    requires AllConnected(width, height, cells, visited, len)
    ensures AllConnected(width, height, Carve(width, height, cells, x, y, k),
                         visited[CellIndex(width, height, x + DX[k], y + DY[k]) := true], len + 1)
  {
    var nx, ny := x + DX[k], y + DY[k];
    var n := CellIndex(width, height, nx, ny);
    var cells' := Carve(width, height, cells, x, y, k);
    CarveOnlyOpens(width, height, cells, x, y, k);
    var visited' := visited[n := true];
    forall x', y' | Visited(width, height, visited', x', y')
      ensures Connected(width, height, cells', x', y', len + 1)
    {
      SameCellSameIndex(width, height, x', y', nx, ny);
      if x' == nx && y' == ny {
        CarvedNeighbourConnected(width, height, cells, x, y, k, len);
      } else {
        ConnectedOpens(width, height, cells, cells', x', y', len);
        ConnectedLonger(width, height, cells', x', y', len);
      }
    }
  }

  /** The cell a carve enters is connected one step beyond the cell it left. */
  lemma CarvedNeighbourConnected(width: int, height: int, cells: seq<bv8>, x: int, y: int, k: int, len: nat)
    requires |cells| == width * height && 0 <= k < 4
    requires InGrid(width, height, x, y) && InGrid(width, height, x + DX[k], y + DY[k])
    requires Connected(width, height, cells, x, y, len)
    ensures Connected(width, height, Carve(width, height, cells, x, y, k), x + DX[k], y + DY[k], len + 1)
  {
    var cells' := Carve(width, height, cells, x, y, k);
    CarveOnlyOpens(width, height, cells, x, y, k);
    ConnectedOpens(width, height, cells, cells', x, y, len);
    TablesAligned(k);
    CarveEffect(width, height, cells, x, y, k, x + DX[k], y + DY[k], Opposite[k]);
    ConnectedThroughOpening(width, height, cells', x, y, k, len);
  }

  lemma PushKeepsFrontier(width: int, height: int, visited: seq<bool>, stack: seq<Cell>, nx: int, ny: int)
    requires |visited| == width * height && InGrid(width, height, nx, ny)
    requires Frontier(width, height, visited, stack)
    ensures Frontier(width, height, visited[CellIndex(width, height, nx, ny) := true], stack + [Cell(nx, ny)])
  {
    var n := CellIndex(width, height, nx, ny);
    var visited' := visited[n := true];
    forall x, y | Visited(width, height, visited', x, y) &&
        HasUnvisitedNeighbor(width, height, visited', x, y)
      ensures Cell(x, y) in stack + [Cell(nx, ny)]
    {
      SameCellSameIndex(width, height, x, y, nx, ny);
      if !(x == nx && y == ny) {
        FewerUnvisited(width, height, visited, n, x, y);
      }
    }
  }

  /** Marking a cell visited never gives another cell an unvisited neighbour. */
  lemma FewerUnvisited(width: int, height: int, visited: seq<bool>, n: int, x: int, y: int)
    requires |visited| == width * height && 0 <= n < |visited|
    requires HasUnvisitedNeighbor(width, height, visited[n := true], x, y)
    ensures HasUnvisitedNeighbor(width, height, visited, x, y)
  {
  }

  /** Popping a cell with no unvisited neighbour keeps the invariant. */
  lemma InvariantPop(width: int, height: int, cells: seq<bv8>, visited: seq<bool>, stack: seq<Cell>)
    requires Invariant(width, height, cells, visited, stack) && |stack| > 0
    requires !HasUnvisitedNeighbor(width, height, visited, stack[|stack| - 1].x, stack[|stack| - 1].y)
    ensures Invariant(width, height, cells, visited, stack[..|stack| - 1])
  {
    SearchingPop(width, height, cells, visited, stack);
    var top := stack[|stack| - 1];
    var rest := stack[..|stack| - 1];
    assert stack == rest + [top];
    forall x, y | Visited(width, height, visited, x, y) &&
        HasUnvisitedNeighbor(width, height, visited, x, y)
      ensures Cell(x, y) in rest
    {
      assert Cell(x, y) in stack;
    }
  }

  lemma SearchingPop(width: int, height: int, cells: seq<bv8>, visited: seq<bool>, stack: seq<Cell>)
    requires Searching(width, height, cells, visited, stack) && |stack| > 0
    ensures Searching(width, height, cells, visited, stack[..|stack| - 1])
  {
    var rest := stack[..|stack| - 1];
    forall i | 0 <= i < |rest|
      ensures InGrid(width, height, rest[i].x, rest[i].y) &&
              visited[CellIndex(width, height, rest[i].x, rest[i].y)]
    {
      assert rest[i] == stack[i];
    }
  }

  /** When the stack runs empty the grid is a perfect maze. */
  lemma InvariantFinal(width: int, height: int, cells: seq<bv8>, visited: seq<bool>)
    requires Invariant(width, height, cells, visited, [])
    ensures Perfect(width, height, cells)
  {
    AllVisited(width, height, visited);
    forall i | 0 <= i < |visited| ensures visited[i] {
      IndexCell(width, height, i);
    }
    CountTrueBounds(visited);
  }

  /** A visited start cell and no visited cell with an unvisited neighbour: then
      every cell of the grid is visited. */
  lemma AllVisited(width: int, height: int, visited: seq<bool>)
    requires width >= 1 && height >= 1 && |visited| == width * height && visited[0]
    requires forall x, y | Visited(width, height, visited, x, y) ::
      !HasUnvisitedNeighbor(width, height, visited, x, y)
    ensures forall x, y | InGrid(width, height, x, y) :: Visited(width, height, visited, x, y)
  {
    forall x, y | InGrid(width, height, x, y) ensures Visited(width, height, visited, x, y) {
      ColumnVisited(width, height, visited, x, y);
    }
  }

  lemma {:induction false} RowVisited(width: int, height: int, visited: seq<bool>, x: int)
    requires width >= 1 && height >= 1 && |visited| == width * height && visited[0]
    requires forall x, y | Visited(width, height, visited, x, y) ::
      !HasUnvisitedNeighbor(width, height, visited, x, y)
    requires 0 <= x < width
    ensures visited[CellIndex(width, height, x, 0)]
  {
    if x > 0 {
      RowVisited(width, height, visited, x - 1);
      assert Visited(width, height, visited, x - 1, 0);
      assert !IsValidUnvisited(width, height, visited, x - 1 + 1, 0);
    }
  }

  lemma {:induction false} ColumnVisited(width: int, height: int, visited: seq<bool>, x: int, y: int)
    requires width >= 1 && height >= 1 && |visited| == width * height && visited[0]
    requires forall x, y | Visited(width, height, visited, x, y) ::
      !HasUnvisitedNeighbor(width, height, visited, x, y)
    requires InGrid(width, height, x, y)
    ensures visited[CellIndex(width, height, x, y)]
  {
    if y == 0 {
      RowVisited(width, height, visited, x);
    } else {
      ColumnVisited(width, height, visited, x, y - 1);
      assert Visited(width, height, visited, x, y - 1);
      assert !IsValidUnvisited(width, height, visited, x, y - 1 + 1);
    }
  }

  // ---------------------------------------------------------------- the loop

  /** The loop invariant of the search, starting from the masks `cells0`: the
      shared part always, the full invariant when the start was fully walled. */
  ghost predicate LoopInvariant(width: int, height: int, cells0: seq<bv8>, closed0: bool,
                                cells: seq<bv8>, visited: seq<bool>, stack: seq<Cell>)
  {
    && Searching(width, height, cells, visited, stack)
    && |cells0| == width * height
    && OnlyOpens(width, height, cells0, cells)
    && (closed0 ==> Invariant(width, height, cells, visited, stack))
  }

  lemma LoopInit(width: int, height: int, cells0: seq<bv8>)
    requires WellFormed(width, height, cells0)
    ensures LoopInvariant(width, height, cells0, AllClosed(cells0), cells0,
                          seq(width * height, i => i == 0), [Cell(0, 0)])
  {
    CountTrueSingle(width * height);
    if AllClosed(cells0) {
      InvariantInit(width, height, cells0);
    }
  }

  /** The stack has room for the neighbour about to be pushed. */
  lemma RoomToPush(width: int, height: int, cells: seq<bv8>, visited: seq<bool>, stack: seq<Cell>, k: int)
    requires PushStep(width, height, cells, visited, stack, k)
    ensures |stack| < |visited|
  {
    var top := stack[|stack| - 1];
    var n := CellIndex(width, height, top.x + DX[k], top.y + DY[k]);
    assert !visited[n];
    CountTrueBounds(visited);
  }

  /** A push step, with the state after it given as cells', visited', stack',
      keeps the loop invariant and visits one more cell. */
  lemma LoopPush(width: int, height: int, cells0: seq<bv8>, closed0: bool,
                 cells: seq<bv8>, visited: seq<bool>, stack: seq<Cell>, k: int,
                 cells': seq<bv8>, visited': seq<bool>, stack': seq<Cell>)
    requires LoopInvariant(width, height, cells0, closed0, cells, visited, stack)
    requires PushStep(width, height, cells, visited, stack, k)
    requires var top := stack[|stack| - 1];
      var nx, ny := top.x + DX[k], top.y + DY[k];
      && cells' == Carve(width, height, cells, top.x, top.y, k)
      && visited' == visited[CellIndex(width, height, nx, ny) := true]
      && stack' == stack + [Cell(nx, ny)]
    ensures LoopInvariant(width, height, cells0, closed0, cells', visited', stack')
    ensures CountTrue(visited) < CountTrue(visited') <= |visited'|
  {
    var top := stack[|stack| - 1];
    SearchingPush(width, height, cells, visited, stack, k);
    CountTrueBounds(visited');
    CarveOnlyOpens(width, height, cells, top.x, top.y, k);
    OnlyOpensTransitive(width, height, cells0, cells, cells');
    if closed0 {
      InvariantPush(width, height, cells, visited, stack, k);
    }
  }

  /** A pop step, with the stack after it given as stack', keeps the loop invariant. */
  lemma LoopPop(width: int, height: int, cells0: seq<bv8>, closed0: bool,
                cells: seq<bv8>, visited: seq<bool>, stack: seq<Cell>, stack': seq<Cell>)
    requires LoopInvariant(width, height, cells0, closed0, cells, visited, stack) && |stack| > 0
    requires !HasUnvisitedNeighbor(width, height, visited, stack[|stack| - 1].x, stack[|stack| - 1].y)
    requires stack' == stack[..|stack| - 1]
    ensures LoopInvariant(width, height, cells0, closed0, cells, visited, stack')
  {
    SearchingPop(width, height, cells, visited, stack);
    if closed0 {
      InvariantPop(width, height, cells, visited, stack);
    }
  }
}
