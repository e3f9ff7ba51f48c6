/** Torches_Generate of src/assets.c: every standing wall side of every cell is
    collected into a scratch buffer, and a few of them, chosen by rand(), get a
    torch mounted on them. The C `rand()` is the oracle `rand`, read at the
    consecutive call numbers k, k + 1, ...; failed allocations are oracle
    flags. */
module Torches {
  import opened RaylibTypes
  import opened MazeFlags
  import opened MazeGrid
  import opened MazeBuild

  datatype Torch = Torch(position: Vector3, normal: Vector3, flickerTime: real, baseIntensity: real)

  /** A collected wall side: its cell, its side (0 north, 1 south, 2 west,
      3 east) and the world XZ point in the middle of that side. */
  datatype WallPos = WallPos(x: int, y: int, direction: int, worldX: real, worldZ: real)

  /** The largest value rand() returns (the glibc value). */
  const RandMax: nat := 2147483647
  const TorchHeight: real := 2.0
  /** How far a torch stands off the wall line. */
  const WallOffset: real := 0.11
  const PlacementChance: real := 0.08

  /** The wall flag each side number stands for. */
  function SideFlag(direction: int): bv8
  {
    if direction == 0 then North else if direction == 1 then South else if direction == 2 then West else East
  }

  function Opt(present: bool, w: WallPos): seq<WallPos>
  {
    if present then [w] else []
  }

  /** The standing sides of one cell, in the order north, south, west, east. */
  function CellWalls(width: int, height: int, cellSize: real, cells: seq<bv8>, x: int, y: int): (ws: seq<WallPos>)
    requires |cells| == width * height
  {
    var c := CellToWorld(width, height, cellSize, x, y);
    var half := cellSize * 0.5;
    Opt(HasWall(width, height, cells, x, y, North), WallPos(x, y, 0, c.x, c.y - half))
    + Opt(HasWall(width, height, cells, x, y, South), WallPos(x, y, 1, c.x, c.y + half))
    + Opt(HasWall(width, height, cells, x, y, West), WallPos(x, y, 2, c.x - half, c.y))
    + Opt(HasWall(width, height, cells, x, y, East), WallPos(x, y, 3, c.x + half, c.y))
  }

  /** The sides collected from every row above y and the first x cells of row
      y, in scan order. */
  function Collected(width: int, height: int, cellSize: real, cells: seq<bv8>, y: int, x: int): seq<WallPos>
    requires |cells| == width * height
    requires 0 <= y <= height && 0 <= x <= width && (x > 0 ==> y < height)
    decreases y, x
  {
    if x > 0 then Collected(width, height, cellSize, cells, y, x - 1) + CellWalls(width, height, cellSize, cells, x - 1, y)
    else if y > 0 then Collected(width, height, cellSize, cells, y - 1, width)
    else []
  }

  /** Each cell has at most four sides, so the scratch buffer of 4·W·H entries
      is never overrun: the first y rows and x more cells leave at most
      4·(y·W + x) entries. */
  lemma {:induction false} CollectedBound(width: int, height: int, cellSize: real, cells: seq<bv8>, y: int, x: int)
    requires |cells| == width * height
    requires 0 <= y <= height && 0 <= x <= width && (x > 0 ==> y < height)
    ensures |Collected(width, height, cellSize, cells, y, x)| <= 4 * (y * width + x)
    decreases y, x
  {
    if x > 0 {
      CollectedBound(width, height, cellSize, cells, y, x - 1);
    } else if y > 0 {
      CollectedBound(width, height, cellSize, cells, y - 1, width);
      assert (y - 1) * width + width == y * width;
    }
  }

  /** A collected entry is a standing side of an in-grid cell, placed at the
      middle of that side. */
  predicate IsWallSide(width: int, height: int, cellSize: real, cells: seq<bv8>, w: WallPos)
    requires |cells| == width * height
  {
    && InGrid(width, height, w.x, w.y) && 0 <= w.direction < 4
    && HasWall(width, height, cells, w.x, w.y, SideFlag(w.direction))
    && var c := CellToWorld(width, height, cellSize, w.x, w.y);
       var half := cellSize * 0.5;
       (w.worldX, w.worldZ) == (if w.direction == 0 then (c.x, c.y - half)
                                else if w.direction == 1 then (c.x, c.y + half)
                                else if w.direction == 2 then (c.x - half, c.y)
                                else (c.x + half, c.y))
  }

  lemma CellWallsAreWalls(width: int, height: int, cellSize: real, cells: seq<bv8>, x: int, y: int)
    requires |cells| == width * height && InGrid(width, height, x, y)
    ensures forall w | w in CellWalls(width, height, cellSize, cells, x, y) :: IsWallSide(width, height, cellSize, cells, w)
  {
  }

  /** Every collected entry is a standing side of an in-grid cell. */
  lemma {:induction false} CollectedAreWalls(width: int, height: int, cellSize: real, cells: seq<bv8>, y: int, x: int)
    requires |cells| == width * height
    requires 0 <= y <= height && 0 <= x <= width && (x > 0 ==> y < height)
    ensures forall w | w in Collected(width, height, cellSize, cells, y, x) :: IsWallSide(width, height, cellSize, cells, w)
    decreases y, x
  {
    if x > 0 {
      CollectedAreWalls(width, height, cellSize, cells, y, x - 1);
      CellWallsAreWalls(width, height, cellSize, cells, x - 1, y);
    } else if y > 0 {
      CollectedAreWalls(width, height, cellSize, cells, y - 1, width);
    }
  }

  /** One draw of the placement test: rand()/RAND_MAX below the chance. */
  predicate Chance(r: nat)
  {
    (r as real) / (RandMax as real) < PlacementChance
  }

  /** The torch mounted on wall w from three draws starting at call k: its
      place along the wall, its flicker phase and its intensity. */
  function TorchAt(w: WallPos, cellSize: real, rand: nat -> nat, k: nat): Torch
  {
    var half := cellSize * 0.5;
    var along := (rand(k) as real / RandMax as real) * (cellSize - 0.5) + 0.25;
    var flicker := (rand(k + 1) % 1000) as real / 1000.0 * 6.28;
    var intensity := 0.6 + (rand(k + 2) % 30) as real / 100.0;
    if w.direction == 0 then
      Torch(Vector3(w.worldX - half + along, TorchHeight, w.worldZ - WallOffset), Vector3(0.0, 0.0, 1.0), flicker, intensity)
    else if w.direction == 1 then
      Torch(Vector3(w.worldX - half + along, TorchHeight, w.worldZ + WallOffset), Vector3(0.0, 0.0, -1.0), flicker, intensity)
    else if w.direction == 2 then
      Torch(Vector3(w.worldX - WallOffset, TorchHeight, w.worldZ - half + along), Vector3(1.0, 0.0, 0.0), flicker, intensity)
    else if w.direction == 3 then
      Torch(Vector3(w.worldX + WallOffset, TorchHeight, w.worldZ - half + along), Vector3(-1.0, 0.0, 0.0), flicker, intensity)
    else
      Torch(Vector3(0.0, 0.0, 0.0), Vector3(0.0, 0.0, 0.0), flicker, intensity)
  }

  /** A torch on a side hangs at TorchHeight, WallOffset behind the wall line
      as seen along its unit normal, between 0.25 and cellSize - 0.25 along the
      wall when the draw is at most RAND_MAX; its flicker phase lies in
      [0, 6.28) and its intensity in [0.6, 0.9). */
  lemma TorchAtPlacement(w: WallPos, cellSize: real, rand: nat -> nat, k: nat)
    requires 0 <= w.direction < 4
    ensures var t := TorchAt(w, cellSize, rand, k);
      && t.position.y == TorchHeight && t.normal.y == 0.0
      && t.normal.x * t.normal.x + t.normal.z * t.normal.z == 1.0
      && (w.direction < 2 ==> t.normal.x == 0.0 && t.position.z == w.worldZ - WallOffset * t.normal.z)
      && (w.direction >= 2 ==> t.normal.z == 0.0 && t.position.x == w.worldX - WallOffset * t.normal.x)
      && 0.0 <= t.flickerTime < 6.28 && 0.6 <= t.baseIntensity < 0.9
    ensures var t := TorchAt(w, cellSize, rand, k);
      var along := if w.direction < 2 then t.position.x - w.worldX else t.position.z - w.worldZ;
      rand(k) <= RandMax && cellSize >= 0.5 ==> -cellSize * 0.5 + 0.25 <= along <= cellSize * 0.5 - 0.25
  {
    var r := rand(k) as real / RandMax as real;
    assert 0.0 <= r;
    if rand(k) <= RandMax && cellSize >= 0.5 {
      assert r <= 1.0;
      MulNonneg(r, cellSize - 0.5);
      MulNonneg(1.0 - r, cellSize - 0.5);
      assert (1.0 - r) * (cellSize - 0.5) == (cellSize - 0.5) - r * (cellSize - 0.5);
    }
  }

  lemma MulNonneg(a: real, b: real)
    requires 0.0 <= a && 0.0 <= b
    ensures 0.0 <= a * b
  {
  }

  /** The result of the placement loop: the torches placed and the next rand()
      call number. */
  datatype Placement = Placement(torches: seq<Torch>, next: nat)

  /** The placement loop from the given point on: one draw per visited wall,
      three more when it gets a torch; it stops when the walls run out or
      maxTorches torches are placed. */
  function Place(walls: seq<WallPos>, cellSize: real, maxTorches: int, rand: nat -> nat, k: nat,
                 placed: seq<Torch>): Placement
    decreases |walls|
  {
    if walls == [] || |placed| >= maxTorches then Placement(placed, k)
    else if Chance(rand(k)) then
      Place(walls[1..], cellSize, maxTorches, rand, k + 4, placed + [TorchAt(walls[0], cellSize, rand, k + 1)])
    else Place(walls[1..], cellSize, maxTorches, rand, k + 1, placed)
  }

  /** The placement never goes past maxTorches, adds at most one torch per
      wall, and only appends to what was already placed. */
  lemma {:induction false} PlaceBound(walls: seq<WallPos>, cellSize: real, maxTorches: int, rand: nat -> nat, k: nat,
                                      placed: seq<Torch>)
    requires |placed| <= maxTorches
    ensures var r := Place(walls, cellSize, maxTorches, rand, k, placed);
      && |r.torches| <= maxTorches
      && |placed| <= |r.torches| <= |placed| + |walls|
      && r.torches[..|placed|] == placed
      && r.next >= k
    decreases |walls|
  {
    if walls != [] && |placed| < maxTorches {
      if Chance(rand(k)) {
        var t := TorchAt(walls[0], cellSize, rand, k + 1);
        PlaceBound(walls[1..], cellSize, maxTorches, rand, k + 4, placed + [t]);
        var r := Place(walls[1..], cellSize, maxTorches, rand, k + 4, placed + [t]);
        assert r.torches[..|placed|] == (placed + [t])[..|placed|];
      } else {
        PlaceBound(walls[1..], cellSize, maxTorches, rand, k + 1, placed);
      }
    }
  }

  /** Every placed torch is mounted on one of the walls it was drawn for. */
  lemma {:induction false} PlacedOnWalls(walls: seq<WallPos>, cellSize: real, maxTorches: int, rand: nat -> nat, k: nat,
                                         placed: seq<Torch>)
    ensures forall t | t in Place(walls, cellSize, maxTorches, rand, k, placed).torches ::
      t in placed || exists j, k' | 0 <= j < |walls| && k' >= k :: t == TorchAt(walls[j], cellSize, rand, k')
    decreases |walls|
  {
    if walls != [] && |placed| < maxTorches {
      if Chance(rand(k)) {
        var t := TorchAt(walls[0], cellSize, rand, k + 1);
        PlacedOnWalls(walls[1..], cellSize, maxTorches, rand, k + 4, placed + [t]);
        assert Place(walls, cellSize, maxTorches, rand, k, placed)
            == Place(walls[1..], cellSize, maxTorches, rand, k + 4, placed + [t]);
        forall u | u in Place(walls, cellSize, maxTorches, rand, k, placed).torches
          ensures u in placed || exists j, k' | 0 <= j < |walls| && k' >= k :: u == TorchAt(walls[j], cellSize, rand, k')
        {
          if u == t {
            assert u == TorchAt(walls[0], cellSize, rand, k + 1);
          } else if !(u in placed) {
            var j, k' :| 0 <= j < |walls[1..]| && k' >= k + 4 && u == TorchAt(walls[1..][j], cellSize, rand, k');
            assert u == TorchAt(walls[j + 1], cellSize, rand, k');
          }
        }
      } else {
        PlacedOnWalls(walls[1..], cellSize, maxTorches, rand, k + 1, placed);
        assert Place(walls, cellSize, maxTorches, rand, k, placed)
            == Place(walls[1..], cellSize, maxTorches, rand, k + 1, placed);
        forall u | u in Place(walls, cellSize, maxTorches, rand, k, placed).torches
          ensures u in placed || exists j, k' | 0 <= j < |walls| && k' >= k :: u == TorchAt(walls[j], cellSize, rand, k')
        {
          if !(u in placed) {
            var j, k' :| 0 <= j < |walls[1..]| && k' >= k + 1 && u == TorchAt(walls[1..][j], cellSize, rand, k');
            assert u == TorchAt(walls[j + 1], cellSize, rand, k');
          }
        }
      }
    }
  }

  /** Torches_Generate. No torch buffer is returned, and the count is 0, for a
      missing maze or output pointer, a non-positive maxTorches or a failed
      allocation; otherwise the buffer holds maxTorches slots and its first
      count entries are the torches the placement loop mounts on the
      collected walls. */
  method Generate(maze: Maze?, outProvided: bool, maxTorches: int, torchesAllocated: bool,
                  rand: nat -> nat, k: nat)
    returns (torches: array?<Torch>, count: int, k': nat)
    requires maze != null ==> maze.Valid()
    ensures torches == null <==> maze == null || !outProvided || maxTorches <= 0 || !torchesAllocated
    ensures torches == null ==> count == 0 && k' == k
    ensures torches != null ==> maze != null && fresh(torches) && torches.Length == maxTorches
    ensures torches != null ==>
      var walls := Collected(maze.width, maze.height, maze.cellSize, maze.cells[..], maze.height, 0);
      var r := Place(walls, maze.cellSize, maxTorches, rand, k, []);
      && 0 <= count <= maxTorches && torches[..count] == r.torches && k' == r.next
  {
    if maze == null || !outProvided || maxTorches <= 0 {
      return null, 0, k;
    }
    if !torchesAllocated {
      return null, 0, k;
    }
    torches := new Torch[maxTorches];
    var walls, wallCount := CollectWalls(maze);
    count, k' := PlaceTorches(walls, wallCount, maze.cellSize, torches, maxTorches, rand, k);
  }

  /** The collection loop: every cell, row by row, adds its standing sides. */
  method CollectWalls(maze: Maze) returns (walls: array<WallPos>, wallCount: int)
    requires maze.Valid()
    ensures fresh(walls) && walls.Length == maze.width * maze.height * 4
    ensures 0 <= wallCount <= walls.Length
    ensures walls[..wallCount] == Collected(maze.width, maze.height, maze.cellSize, maze.cells[..], maze.height, 0)
  {
    var width, height, cellSize := maze.width, maze.height, maze.cellSize;
    ghost var cells := maze.cells[..];
    walls := new WallPos[width * height * 4];
    wallCount := 0;
    var y := 0;
    while y < height
      invariant 0 <= y <= height && 0 <= wallCount <= walls.Length
      invariant walls[..wallCount] == Collected(width, height, cellSize, cells, y, 0)
    {
      var x := 0;
      while x < width
        invariant 0 <= x <= width && 0 <= wallCount <= walls.Length
        invariant walls[..wallCount] == Collected(width, height, cellSize, cells, y, x)
      {
        CollectedBound(width, height, cellSize, cells, y, x);
        RowMajorInRange(width, height, x, y);
        wallCount := CollectCell(walls, wallCount, width, height, cellSize, maze.cells[..], x, y);
        x := x + 1;
      }
      y := y + 1;
    }
  }

  /** The four side tests of one cell. */
  method CollectCell(walls: array<WallPos>, wallCount: int, width: int, height: int, cellSize: real,
                     cells: seq<bv8>, x: int, y: int)
    returns (wallCount': int)
    requires |cells| == width * height && 0 <= wallCount && wallCount + 4 <= walls.Length
    modifies walls
    ensures wallCount <= wallCount' <= wallCount + 4
    ensures walls[..wallCount'] == old(walls[..wallCount]) + CellWalls(width, height, cellSize, cells, x, y)
  {
    var c := CellToWorld(width, height, cellSize, x, y);
    var half := cellSize * 0.5;
    var hasNorth := HasWall(width, height, cells, x, y, North);
    var hasSouth := HasWall(width, height, cells, x, y, South);
    var hasWest := HasWall(width, height, cells, x, y, West);
    var hasEast := HasWall(width, height, cells, x, y, East);
    var north, south := WallPos(x, y, 0, c.x, c.y - half), WallPos(x, y, 1, c.x, c.y + half);
    var west, east := WallPos(x, y, 2, c.x - half, c.y), WallPos(x, y, 3, c.x + half, c.y);
    ghost var before := walls[..wallCount];
    ghost var a, b, d, e := Opt(hasNorth, north), Opt(hasSouth, south), Opt(hasWest, west), Opt(hasEast, east);
    assert CellWalls(width, height, cellSize, cells, x, y) == a + b + d + e;
    wallCount' := Append(walls, wallCount, hasNorth, north);
    wallCount' := Append(walls, wallCount', hasSouth, south);
    wallCount' := Append(walls, wallCount', hasWest, west);
    wallCount' := Append(walls, wallCount', hasEast, east);
    AppendFour(before, a, b, d, e);
  }

  lemma AppendFour(s: seq<WallPos>, a: seq<WallPos>, b: seq<WallPos>, c: seq<WallPos>, d: seq<WallPos>)
    ensures s + a + b + c + d == s + (a + b + c + d)
  {
  }

  /** `if (present) walls[wallCount++] = w;` */
  method Append(walls: array<WallPos>, wallCount: int, present: bool, w: WallPos) returns (wallCount': int)
    requires 0 <= wallCount < walls.Length
    modifies walls
    ensures wallCount' == wallCount + |Opt(present, w)|
    ensures walls[..wallCount'] == old(walls[..wallCount]) + Opt(present, w)
  {
    wallCount' := wallCount;
    if present {
      walls[wallCount] := w;
      wallCount' := wallCount + 1;
    }
  }

  /** The placement loop over the collected walls. */
  method PlaceTorches(walls: array<WallPos>, wallCount: int, cellSize: real, torches: array<Torch>, maxTorches: int,
                      rand: nat -> nat, k: nat)
    returns (count: int, k': nat)
    requires 0 <= wallCount <= walls.Length && torches.Length == maxTorches
    requires walls as object != torches
    modifies torches
    ensures var r := Place(walls[..wallCount], cellSize, maxTorches, rand, k, []);
      0 <= count <= maxTorches && torches[..count] == r.torches && k' == r.next
  {
    ghost var ws := walls[..wallCount];
    count := 0;
    k' := k;
    var i := 0;
    assert ws[0..] == ws;
    while i < wallCount && count < maxTorches
      invariant 0 <= i <= wallCount && 0 <= count <= maxTorches
      invariant walls[..wallCount] == ws
      invariant Place(ws[i..], cellSize, maxTorches, rand, k', torches[..count]) == Place(ws, cellSize, maxTorches, rand, k, [])
    {
      ghost var placed := torches[..count];
      PlaceStep(ws, i, cellSize, maxTorches, rand, k', placed);
      var chance := Chance(rand(k'));
      if chance {
        var t := TorchAt(walls[i], cellSize, rand, k' + 1);
        torches[count] := t;
        assert torches[..count + 1] == placed + [t];
        count := count + 1;
        k' := k' + 4;
      } else {
        k' := k' + 1;
      }
      i := i + 1;
    }
    assert ws[i..] == [] || count >= maxTorches;
  }

  /** One turn of the placement loop, as Place takes it. */
  lemma PlaceStep(ws: seq<WallPos>, i: int, cellSize: real, maxTorches: int, rand: nat -> nat, k: nat, placed: seq<Torch>)
    requires 0 <= i < |ws| && |placed| < maxTorches
    ensures Place(ws[i..], cellSize, maxTorches, rand, k, placed)
         == if Chance(rand(k)) then Place(ws[i + 1..], cellSize, maxTorches, rand, k + 4, placed + [TorchAt(ws[i], cellSize, rand, k + 1)])
            else Place(ws[i + 1..], cellSize, maxTorches, rand, k + 1, placed)
  {
    assert ws[i..][1..] == ws[i + 1..];
  }

  /** At most maxTorches torches come out, and the scratch buffer never holds
      more than 4·W·H sides. */
  lemma GenerateBounds(maze: Maze, maxTorches: int, rand: nat -> nat, k: nat)
    requires maze.Valid() && maxTorches >= 0
    ensures var walls := Collected(maze.width, maze.height, maze.cellSize, maze.cells[..], maze.height, 0);
      && |walls| <= 4 * (maze.width * maze.height)
      && |Place(walls, maze.cellSize, maxTorches, rand, k, []).torches| <= maxTorches
  {
    var walls := Collected(maze.width, maze.height, maze.cellSize, maze.cells[..], maze.height, 0);
    CollectedBound(maze.width, maze.height, maze.cellSize, maze.cells[..], maze.height, 0);
    assert maze.height * maze.width == maze.width * maze.height;
    PlaceBound(walls, maze.cellSize, maxTorches, rand, k, []);
  }
}
