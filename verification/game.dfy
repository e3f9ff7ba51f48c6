/** The game rules of src/main.c: the starting layout InitGame builds, and the
    PLAYING block of one frame (the player's slide move, jump and gravity under
    the ceiling, the pursuers' seek with the first capture ending the loop, and
    the exit test). Key presses and the camera-derived wish direction are the
    frame's input; sqrtf is the oracle `sqrt`; rand() and malloc are oracles as
    in the other modules. */
module Game {
  import opened RaylibTypes
  import opened MazeFlags
  import opened MazeGrid
  import opened MazeTopology
  import opened MazeBuild
  import opened MazeWalls
  import opened Collision
  import opened Torches
  import opened Particles

  const MazeWidth: int := 15
  const MazeHeight: int := 15
  const CellSize: real := 3.0
  const WallHeight: real := 4.0
  const PlayerRadius: real := 0.30
  const PlayerEyeHeight: real := 1.80
  const Gravity: real := -18.0
  const JumpSpeed: real := 6.5
  const MoveSpeed: real := 5.0
  const RunMultiplier: real := 1.8
  const ScaryCharCount: int := 3
  const ScaryCharSpeed: real := 3.5
  const ScaryCharRadius: real := 0.35
  const ScaryCharHeight: real := 2.2
  /** The capacity InitGame gives the wall rectangle buffer. */
  const MaxWalls: int := 900
  const MaxTorches: int := 25
  /** Particles per torch flame. */
  const FlameParticles: int := 20
  /** The highest the player's feet may be: the wall top minus the eye height. */
  const MaxFeetY: real := 2.2

  datatype GameState = Playing | Won | GameOver

  datatype ScaryCharacter = ScaryCharacter(position: Vector3, speed: real, radius: real, height: real)

  /** What one frame reads from the keyboard and the camera: the normalised XZ
      wish direction, the run key and a fresh press of the jump key. */
  datatype FrameInput = FrameInput(wish: Vector2, run: bool, jump: bool)

  function Ground(p: Vector3): Vector2
  {
    Vector2(p.x, p.z)
  }

  // ---------------------------------------------------------------- the player

  /** The player's XZ position after the slide move along the wish direction. */
  function PlayerStep(p: Vector3, input: FrameInput, dt: real, walls: seq<WallRect>): (q: Vector2)
    ensures !Collides(Ground(p), PlayerRadius, walls) ==> !Collides(q, PlayerRadius, walls)
  {
    var step := WishStep(input, dt);
    SlideMoveStaysFreeWhenFree(Ground(p), step, PlayerRadius, walls);
    SlideMove(Ground(p), step, PlayerRadius, walls)
  }

  /** The player's step this frame: the wish direction at walking speed, or
      1.8 times that while running. */
  function WishStep(input: FrameInput, dt: real): Vector2
  {
    var speed := MoveSpeed * (if input.run then RunMultiplier else 1.0);
    Vector2(input.wish.x * speed * dt, input.wish.y * speed * dt)
  }

  lemma SlideMoveStaysFreeWhenFree(p: Vector2, step: Vector2, r: real, walls: seq<WallRect>)
    ensures !Collides(p, r, walls) ==> !Collides(SlideMove(p, step, r, walls), r, walls)
  {
    if !Collides(p, r, walls) {
      SlideMoveStaysFree(p, step, r, walls);
    }
  }

  /** The vertical state after the jump and gravity step. */
  datatype Vertical = Vertical(y: real, velY: real, onGround: bool)

  /** Jump and gravity: on the ground (feet at most 0.0001 up) the player
      stands at 0 and may jump, in the air gravity acts; the feet then move by
      the velocity, and are held under the ceiling, where upward speed is lost. */
  function VerticalStep(y: real, velY: real, jump: bool, dt: real): (v: Vertical)
    ensures v.y <= MaxFeetY
    ensures v.onGround <==> y <= 0.0001 && !jump
  {
    var grounded := y <= 0.0001;
    var y1 := if grounded then 0.0 else y;
    var vel := if grounded then (if jump then JumpSpeed else 0.0) else velY + Gravity * dt;
    var y2 := y1 + vel * dt;
    if y2 > MaxFeetY then Vertical(MaxFeetY, if vel > 0.0 then 0.0 else vel, grounded && !jump)
    else Vertical(y2, vel, grounded && !jump)
  }

  /** Standing on the ground without jumping keeps the player at rest at 0; a
      jump leaves the ground upward unless the ceiling stops it within the
      frame; in the air the velocity loses 18 per second; and whenever the
      feet reach the ceiling the velocity is no longer upward. */
  lemma VerticalCases(y: real, velY: real, jump: bool, dt: real)
    requires dt >= 0.0
    ensures var v := VerticalStep(y, velY, jump, dt);
      && (y <= 0.0001 && !jump ==> v.y == 0.0 && v.velY == 0.0)
      && (y <= 0.0001 && jump && JumpSpeed * dt <= MaxFeetY ==> v.velY == JumpSpeed && v.y == JumpSpeed * dt)
      && (y <= 0.0001 && jump && JumpSpeed * dt > MaxFeetY ==> v.velY == 0.0 && v.y == MaxFeetY)
      && (y > 0.0001 && y + (velY + Gravity * dt) * dt <= MaxFeetY ==> v.velY == velY + Gravity * dt)
      && (y > 0.0001 && y + (velY + Gravity * dt) * dt > MaxFeetY ==> v.y == MaxFeetY && v.velY <= 0.0)
      && (y > 0.0001 && velY <= 0.0 ==> v.velY <= 0.0)
  {
    if y > 0.0001 && velY <= 0.0 {
      assert Gravity * dt <= 0.0;
    }
  }

  // ---------------------------------------------------------------- the pursuers

  /** The pursuer's circle on the ground. */
  function CharGround(c: ScaryCharacter): Vector2
  {
    Ground(c.position)
  }

  /** One pursuer's seek: unless it is within 0.001 of the player it slides one
      step of its speed towards the player, with its own radius. */
  function Pursue(c: ScaryCharacter, player: Vector2, dt: real, sqrt: real -> real, walls: seq<WallRect>)
    : (c': ScaryCharacter)
    ensures c'.speed == c.speed && c'.radius == c.radius && c'.height == c.height
    ensures c'.position.y == c.position.y
    ensures !Collides(CharGround(c), c.radius, walls) ==> !Collides(CharGround(c'), c.radius, walls)
  {
    var dir := Toward(CharGround(c), player);
    var dist := sqrt(LengthSq(dir));
    if dist > 0.001 then
      var step := SeekStep(dir, dist, c.speed, dt);
      SlideMoveStaysFreeWhenFree(CharGround(c), step, c.radius, walls);
      var q := SlideMove(CharGround(c), step, c.radius, walls);
      c.(position := Vector3(q.x, c.position.y, q.y))
    else c
  }

  function Toward(from: Vector2, to: Vector2): Vector2
  {
    Vector2(to.x - from.x, to.y - from.y)
  }

  function LengthSq(v: Vector2): real
  {
    v.x * v.x + v.y * v.y
  }

  /** The direction divided by its length, then scaled by speed and dt. */
  function SeekStep(dir: Vector2, dist: real, speed: real, dt: real): Vector2
    requires dist != 0.0
  {
    Vector2(dir.x / dist * speed * dt, dir.y / dist * speed * dt)
  }

  /** A pursuer whose circle touches the player's (boundary included). */
  predicate Catches(player: Vector2, c: ScaryCharacter)
  {
    CircleCircleIntersect(player, PlayerRadius, CharGround(c), c.radius)
  }

  /** The pursuers after the loop, and the index of the one that caught the
      player, or -1. */
  datatype ChaseResult = ChaseResult(chars: seq<ScaryCharacter>, caught: int)

  /** The pursuer loop from index i on: each pursuer moves, then is tested
      against the player from where it now stands; the first capture ends the
      loop. */
  function Chase(cs: seq<ScaryCharacter>, i: nat, player: Vector2, dt: real, sqrt: real -> real,
                 walls: seq<WallRect>): ChaseResult
    decreases |cs| - i
  {
    if i >= |cs| then ChaseResult(cs, -1)
    else
      var c' := Pursue(cs[i], player, dt, sqrt, walls);
      if Catches(player, c') then ChaseResult(cs[i := c'], i)
      else Chase(cs[i := c'], i + 1, player, dt, sqrt, walls)
  }

  /** The loop's outcome: a pursuer before i is untouched; from i on every
      pursuer up to the capturing one moves once and only the last of them
      catches; the ones after the capture neither move nor get tested. */
  lemma {:induction false} ChaseOrder(cs: seq<ScaryCharacter>, i: nat, player: Vector2, dt: real,
                                      sqrt: real -> real, walls: seq<WallRect>)
    requires i <= |cs|
    ensures var r := Chase(cs, i, player, dt, sqrt, walls);
      && |r.chars| == |cs|
      && (r.caught == -1 || i <= r.caught < |cs|)
      && (forall j | 0 <= j < i :: r.chars[j] == cs[j])
      && (forall j | i <= j < |cs| && (r.caught == -1 || j <= r.caught) ::
            r.chars[j] == Pursue(cs[j], player, dt, sqrt, walls))
      && (forall j | i <= j < |cs| && (r.caught == -1 || j < r.caught) :: !Catches(player, r.chars[j]))
      && (r.caught >= 0 ==> Catches(player, r.chars[r.caught]))
      && (r.caught >= 0 ==> forall j | r.caught < j < |cs| :: r.chars[j] == cs[j])
    decreases |cs| - i
  {
    if i < |cs| {
      var c' := Pursue(cs[i], player, dt, sqrt, walls);
      if !Catches(player, c') {
        ChaseOrder(cs[i := c'], i + 1, player, dt, sqrt, walls);
      }
    }
  }

  /** One turn of the pursuer loop, as Chase takes it. */
  lemma ChaseStep(cs: seq<ScaryCharacter>, i: nat, player: Vector2, dt: real, sqrt: real -> real,
                  walls: seq<WallRect>, cs': seq<ScaryCharacter>, caught: bool)
    requires i < |cs|
    requires cs' == cs[i := Pursue(cs[i], player, dt, sqrt, walls)]
    requires caught == Catches(player, cs'[i])
    ensures caught ==> Chase(cs, i, player, dt, sqrt, walls) == ChaseResult(cs', i)
    ensures !caught ==> Chase(cs, i, player, dt, sqrt, walls) == Chase(cs', i + 1, player, dt, sqrt, walls)
  {
  }

  /** Pursuers clear of every wall stay clear of every wall. */
  lemma {:induction false} ChaseKeepsFree(cs: seq<ScaryCharacter>, i: nat, player: Vector2, dt: real,
                                          sqrt: real -> real, walls: seq<WallRect>)
    requires i <= |cs|
    requires forall j | 0 <= j < |cs| :: !Collides(CharGround(cs[j]), cs[j].radius, walls)
    ensures var r := Chase(cs, i, player, dt, sqrt, walls);
      |r.chars| == |cs| && forall j | 0 <= j < |cs| :: !Collides(CharGround(r.chars[j]), r.chars[j].radius, walls)
    decreases |cs| - i
  {
    if i < |cs| {
      var c' := Pursue(cs[i], player, dt, sqrt, walls);
      var cs' := cs[i := c'];
      assert forall j | 0 <= j < |cs'| :: !Collides(CharGround(cs'[j]), cs'[j].radius, walls);
      if !Catches(player, c') {
        ChaseKeepsFree(cs', i + 1, player, dt, sqrt, walls);
      }
    }
  }

  /** A pursuer standing on the player does not move. */
  lemma PursuerOnPlayerStays(c: ScaryCharacter, player: Vector2, dt: real, sqrt: real -> real, walls: seq<WallRect>)
    requires sqrt(LengthSq(Toward(CharGround(c), player))) <= 0.001
    ensures Pursue(c, player, dt, sqrt, walls) == c
  {
  }

  // ---------------------------------------------------------------- the outcome

  /** The state a PLAYING frame ends in: reaching the exit wins, and it is
      tested after the pursuers, so it overrides a capture in the same frame. */
  function Outcome(caught: bool, atExit: bool): (s: GameState)
    ensures s == Won <==> atExit
    ensures s == GameOver <==> caught && !atExit
    ensures s == Playing <==> !caught && !atExit
  {
    if atExit then Won else if caught then GameOver else Playing
  }

  /** The player's feet are over the exit cell. */
  predicate AtExit(width: int, height: int, cellSize: real, exitPos: Cell, p: Vector3)
    requires cellSize > 0.0
  {
    var cell := WorldToCell(width, height, cellSize, p.x, p.z);
    IsExit(exitPos, cell.x, cell.y)
  }

  // ---------------------------------------------------------------- the starting layout

  /** A standing position at the centre of a cell, feet on the floor. */
  function Spawn(width: int, height: int, cellSize: real, cell: Cell): Vector3
  {
    var c := CellToWorld(width, height, cellSize, cell.x, cell.y);
    Vector3(c.x, 0.0, c.y)
  }

  /** A pursuer as InitGame places it. */
  function NewPursuer(position: Vector3): ScaryCharacter
  {
    ScaryCharacter(position, ScaryCharSpeed, ScaryCharRadius, ScaryCharHeight)
  }

  /** The three pursuers: at the exit, in the top-right corner cell and in the
      bottom-left corner cell. */
  function StartPursuers(width: int, height: int, cellSize: real, exitPos: Cell): seq<ScaryCharacter>
  {
    [NewPursuer(Spawn(width, height, cellSize, exitPos)),
     NewPursuer(Spawn(width, height, cellSize, Cell(width - 1, 0))),
     NewPursuer(Spawn(width, height, cellSize, Cell(0, height - 1)))]
  }

  /** On the game's 15×15 maze of 3-unit cells, with the start and exit that
      Maze_Create sets: every spawn point lies in its own cell, the player does
      not start at the exit, and no pursuer starts touching the player, so the
      first frame begins in PLAYING with nobody caught. */
  lemma StartLayout()
    ensures var start, exit := Cell(0, 0), Cell(MazeWidth - 1, MazeHeight - 1);
      var player := Spawn(MazeWidth, MazeHeight, CellSize, start);
      var cs := StartPursuers(MazeWidth, MazeHeight, CellSize, exit);
      && WorldToCell(MazeWidth, MazeHeight, CellSize, player.x, player.z) == start
      && !AtExit(MazeWidth, MazeHeight, CellSize, exit, player)
      && WorldToCell(MazeWidth, MazeHeight, CellSize, cs[0].position.x, cs[0].position.z) == exit
      && WorldToCell(MazeWidth, MazeHeight, CellSize, cs[1].position.x, cs[1].position.z) == Cell(MazeWidth - 1, 0)
      && WorldToCell(MazeWidth, MazeHeight, CellSize, cs[2].position.x, cs[2].position.z) == Cell(0, MazeHeight - 1)
      && forall j | 0 <= j < |cs| :: !Catches(Ground(player), cs[j])
  {
    var start, exit := Cell(0, 0), Cell(MazeWidth - 1, MazeHeight - 1);
    CellWorldRoundTrip(MazeWidth, MazeHeight, CellSize, 0, 0);
    CellWorldRoundTrip(MazeWidth, MazeHeight, CellSize, MazeWidth - 1, MazeHeight - 1);
    CellWorldRoundTrip(MazeWidth, MazeHeight, CellSize, MazeWidth - 1, 0);
    CellWorldRoundTrip(MazeWidth, MazeHeight, CellSize, 0, MazeHeight - 1);
    var player := Spawn(MazeWidth, MazeHeight, CellSize, start);
    assert player == Vector3(-21.0, 0.0, -21.0);
    var cs := StartPursuers(MazeWidth, MazeHeight, CellSize, exit);
    assert cs[0].position == Vector3(21.0, 0.0, 21.0);
    assert cs[1].position == Vector3(21.0, 0.0, -21.0);
    assert cs[2].position == Vector3(-21.0, 0.0, 21.0);
  }

  /** A playing frame keeps every body clear of the walls: a player and
      pursuers that start it clear of every wall end it clear of every wall. */
  lemma FrameKeepsFree(p: Vector3, cs: seq<ScaryCharacter>, input: FrameInput, dt: real, sqrt: real -> real,
                       walls: seq<WallRect>)
    requires !Collides(Ground(p), PlayerRadius, walls)
    requires forall j | 0 <= j < |cs| :: !Collides(CharGround(cs[j]), cs[j].radius, walls)
    ensures var xz := PlayerStep(p, input, dt, walls);
      var chase := Chase(cs, 0, xz, dt, sqrt, walls);
      && !Collides(xz, PlayerRadius, walls)
      && forall j | 0 <= j < |chase.chars| :: !Collides(CharGround(chase.chars[j]), chase.chars[j].radius, walls)
  {
    var xz := PlayerStep(p, input, dt, walls);
    ChaseKeepsFree(cs, 0, xz, dt, sqrt, walls);
  }

  /** Which allocations succeed during InitGame: the maze object and its
      cells, the two work buffers of Maze_Generate, the wall rectangles, the
      torches, the array of particle systems, and the i-th particle system and
      its particle buffer. */
  datatype Allocations = Allocations(maze: bool, cells: bool, visited: bool, stack: bool, walls: bool,
                                     torches: bool, systems: bool, system: nat -> bool, particles: nat -> bool)

  // ---------------------------------------------------------------- the frame state

  /** The main loop's game variables. */
  class World {
    var maze: Maze?
    var walls: array?<WallRect>
    var wallCount: int
    var torches: array?<Torch>
    var torchCount: int
    var particleSystems: array?<ParticleSystem?>
    var playerPos: Vector3
    var playerVelY: real
    var onGround: bool
    var yaw: real
    var pitch: real
    var gameState: GameState
    /** The fixed array of pursuers; its entries change in place. */
    const scaryChars: array<ScaryCharacter>

    ghost predicate Valid()
      reads this, maze, if maze != null then {maze.cells} else {}
    {
      && scaryChars.Length == ScaryCharCount
      && (maze != null ==> maze.Valid())
      && (walls != null ==> 0 <= wallCount <= walls.Length && walls as object != scaryChars)
      && (maze != null ==> maze.cells as object != scaryChars)
    }

    /** The game variables as main declares them, before the first InitGame. */
    constructor ()
      ensures Valid() && fresh(scaryChars)
      ensures maze == null && walls == null && wallCount == 0 && torches == null && torchCount == 0
      ensures particleSystems == null && gameState == Playing && onGround
      ensures playerPos == Vector3(0.0, 0.0, 0.0) && playerVelY == 0.0 && yaw == 0.0 && pitch == 0.0
    {
      maze := null;
      walls := null;
      wallCount := 0;
      torches := null;
      torchCount := 0;
      particleSystems := null;
      playerPos := Vector3(0.0, 0.0, 0.0);
      playerVelY := 0.0;
      onGround := true;
      yaw := 0.0;
      pitch := 0.0;
      gameState := Playing;
      scaryChars := new ScaryCharacter[3](_ => ScaryCharacter(Vector3(0.0, 0.0, 0.0), 0.0, 0.0, 0.0));
    }

    /** InitGame: drop the previous maze, walls, torches and particle systems;
        build and carve a new maze (giving up when it cannot be created, and
        when the wall buffer cannot be allocated); fill the wall rectangles;
        place torches with a flame each; put the player on the start cell and
        the pursuers on the exit and the two other corners; and start
        playing. The vertical velocity is left as it was. */
    method InitGame(alloc: Allocations, rand: nat -> nat, k: nat) returns (kMaze: nat, k': nat)
      requires Valid()
      modifies this`maze, this`walls, this`wallCount, this`torches, this`torchCount, this`particleSystems
      modifies this`playerPos, this`yaw, this`pitch, this`gameState, scaryChars
      ensures Valid()
      ensures !(alloc.maze && alloc.cells) ==>
        && maze == null && walls == null && torches == null && particleSystems == null
        && wallCount == old(wallCount) && torchCount == old(torchCount) && playerPos == old(playerPos)
        && gameState == old(gameState) && yaw == old(yaw) && pitch == old(pitch)
        && scaryChars[..] == old(scaryChars[..]) && kMaze == k' == k
      ensures alloc.maze && alloc.cells ==>
        && maze != null && fresh(maze) && fresh(maze.cells) && maze.Valid()
        && maze.width == MazeWidth && maze.height == MazeHeight && maze.cellSize == CellSize
        && maze.startPos == Cell(0, 0) && maze.exitPos == Cell(MazeWidth - 1, MazeHeight - 1)
        && (alloc.visited && alloc.stack ==> Perfect(MazeWidth, MazeHeight, maze.cells[..]))
      ensures alloc.maze && alloc.cells && !alloc.walls ==>
        && walls == null && torches == null && particleSystems == null
        && wallCount == old(wallCount) && torchCount == old(torchCount) && playerPos == old(playerPos)
        && gameState == old(gameState) && yaw == old(yaw) && pitch == old(pitch)
        && scaryChars[..] == old(scaryChars[..]) && k' == kMaze
      ensures alloc.maze && alloc.cells && alloc.walls ==>
        && maze != null && maze.Valid() && walls != null
        && Furnished(maze, alloc, rand, kMaze, walls, wallCount, torches, torchCount, particleSystems, k')
        && wallCount == |AllRects(MazeWidth, MazeHeight, CellSize, maze.cells[..])|
        && walls[..wallCount] == AsWritten(MazeWidth, MazeHeight, CellSize, maze.cells[..], MaxWalls)
        && playerPos == Spawn(maze.width, maze.height, maze.cellSize, maze.startPos)
        && scaryChars[..] == StartPursuers(maze.width, maze.height, maze.cellSize, maze.exitPos)
        && yaw == 0.0 && pitch == 0.0 && gameState == Playing
    {
      maze := null;
      walls := null;
      torches := null;
      particleSystems := null;
      var m;
      m, kMaze := NewMaze(alloc, rand, k);
      k' := kMaze;
      if m == null {
        return;
      }
      maze := m;
      if !alloc.walls {
        return;
      }
      k' := Populate(m, alloc, rand, kMaze);
      GameWallsAsWritten(m.cells[..]);
    }

    /** The part of InitGame after the wall buffer is allocated: walls,
        torches and flames on the maze, then the bodies in their places. */
    method Populate(m: Maze, alloc: Allocations, rand: nat -> nat, k: nat) returns (k': nat)
      requires Valid() && maze == m && m.Valid()
      modifies this`walls, this`wallCount, this`torches, this`torchCount, this`particleSystems
      modifies this`playerPos, this`yaw, this`pitch, this`gameState, scaryChars
      ensures Valid() && walls != null
      ensures Furnished(m, alloc, rand, k, walls, wallCount, torches, torchCount, particleSystems, k')
      ensures playerPos == Spawn(m.width, m.height, m.cellSize, m.startPos)
      ensures scaryChars[..] == StartPursuers(m.width, m.height, m.cellSize, m.exitPos)
      ensures yaw == 0.0 && pitch == 0.0 && gameState == Playing
    {
      var w, wc, t, tc, ps, k2 := Furnish(m, alloc, rand, k);
      walls, wallCount, torches, torchCount, particleSystems, k' := w, wc, t, tc, ps, k2;
      PlaceBodies(m);
    }

    /** The player on the start cell, the pursuers on the exit and the two
        remaining corners, the view level, and the game under way. */
    method PlaceBodies(m: Maze)
      requires Valid()
      modifies this`playerPos, this`yaw, this`pitch, this`gameState, scaryChars
      ensures Valid()
      ensures playerPos == Spawn(m.width, m.height, m.cellSize, m.startPos)
      ensures scaryChars[..] == StartPursuers(m.width, m.height, m.cellSize, m.exitPos)
      ensures yaw == 0.0 && pitch == 0.0 && gameState == Playing
    {
      playerPos := Spawn(m.width, m.height, m.cellSize, m.startPos);
      scaryChars[0] := NewPursuer(Spawn(m.width, m.height, m.cellSize, m.exitPos));
      scaryChars[1] := NewPursuer(Spawn(m.width, m.height, m.cellSize, Cell(m.width - 1, 0)));
      scaryChars[2] := NewPursuer(Spawn(m.width, m.height, m.cellSize, Cell(0, m.height - 1)));
      yaw := 0.0;
      pitch := 0.0;
      gameState := Playing;
    }

    /** The PLAYING block of one frame. Nothing changes outside PLAYING. In
        PLAYING the player slides along its wish, jumps or falls under the
        ceiling, the pursuers chase it from its new position until the first
        capture, and the exit test decides last. */
    method Frame(input: FrameInput, dt: real, sqrt: real -> real)
      requires Valid() && maze != null && walls != null
      modifies this`playerPos, this`playerVelY, this`onGround, this`gameState, scaryChars
      ensures old(gameState) != Playing ==>
        && gameState == old(gameState) && playerPos == old(playerPos) && playerVelY == old(playerVelY)
        && onGround == old(onGround) && scaryChars[..] == old(scaryChars[..])
      ensures old(gameState) == Playing ==>
        var live := Collision.Live(walls, wallCount);
        var xz := PlayerStep(old(playerPos), input, dt, live);
        var v := VerticalStep(old(playerPos.y), old(playerVelY), input.jump, dt);
        var chase := Chase(old(scaryChars[..]), 0, xz, dt, sqrt, live);
        && playerPos == Vector3(xz.x, v.y, xz.y) && playerVelY == v.velY && onGround == v.onGround
        && scaryChars[..] == chase.chars
        && gameState == Outcome(chase.caught >= 0, AtExit(maze.width, maze.height, maze.cellSize, maze.exitPos, playerPos))
    {
      if gameState != Playing {
        return;
      }
      ghost var live := Collision.Live(walls, wallCount);
      ghost var xz := PlayerStep(playerPos, input, dt, live);
      ghost var v := VerticalStep(playerPos.y, playerVelY, input.jump, dt);
      ghost var chase := Chase(scaryChars[..], 0, xz, dt, sqrt, live);
      MovePlayer(input, dt);
      Jump(input.jump, dt);
      assert playerPos == Vector3(xz.x, v.y, xz.y);
      var caught := false;
      if gameState == Playing {
        caught := ChaseAll(Ground(playerPos), dt, sqrt);
        if caught {
          gameState := GameOver;
        }
      }
      assert scaryChars[..] == chase.chars && caught == (chase.caught >= 0);
      var cell := WorldToCell(maze.width, maze.height, maze.cellSize, playerPos.x, playerPos.z);
      if IsExit(maze.exitPos, cell.x, cell.y) {
        gameState := Won;
      }
    }

    /** The player's slide move along its wish, through two wall tests. */
    method MovePlayer(input: FrameInput, dt: real)
      requires Valid() && walls != null
      modifies this`playerPos
      ensures var xz := PlayerStep(old(playerPos), input, dt, Collision.Live(walls, wallCount));
        playerPos == old(playerPos).(x := xz.x, z := xz.y)
    {
      var step := WishStep(input, dt);
      var p := MoveAxisSeparated(Ground(playerPos), step, PlayerRadius, walls, wallCount);
      playerPos := playerPos.(x := p.x, z := p.y);
    }

    /** Jump and gravity on the player's feet. */
    method Jump(jump: bool, dt: real)
      modifies this`playerPos, this`playerVelY, this`onGround
      ensures var v := VerticalStep(old(playerPos.y), old(playerVelY), jump, dt);
        && playerPos == old(playerPos).(y := v.y) && playerVelY == v.velY && onGround == v.onGround
    {
      onGround := playerPos.y <= 0.0001;
      if onGround {
        playerPos := playerPos.(y := 0.0);
        playerVelY := 0.0;
        if jump {
          playerVelY := JumpSpeed;
          onGround := false;
        }
      } else {
        playerVelY := playerVelY + Gravity * dt;
      }
      playerPos := playerPos.(y := playerPos.y + playerVelY * dt);
      var maxFeetY := WallHeight - PlayerEyeHeight;
      if playerPos.y > maxFeetY {
        playerPos := playerPos.(y := maxFeetY);
        if playerVelY > 0.0 {
          playerVelY := 0.0;
        }
      }
    }

    /** The pursuer loop, with its break on the first capture. */
    method ChaseAll(player: Vector2, dt: real, sqrt: real -> real) returns (caught: bool)
      requires Valid() && walls != null
      modifies scaryChars
      ensures var chase := Chase(old(scaryChars[..]), 0, player, dt, sqrt, Collision.Live(walls, wallCount));
        scaryChars[..] == chase.chars && caught == (chase.caught >= 0)
    {
      ghost var live := Collision.Live(walls, wallCount);
      ghost var goal := Chase(scaryChars[..], 0, player, dt, sqrt, live);
      caught := false;
      var i := 0;
      while i < ScaryCharCount
        invariant 0 <= i <= ScaryCharCount && !caught
        invariant Collision.Live(walls, wallCount) == live
        invariant Chase(scaryChars[..], i, player, dt, sqrt, live) == goal
      {
        ghost var cs := scaryChars[..];
        caught := PursueOne(i, player, dt, sqrt);
        ChaseStep(cs, i, player, dt, sqrt, live, scaryChars[..], caught);
        if caught {
          break;
        }
        i := i + 1;
      }
      if !caught {
        assert Chase(scaryChars[..], i, player, dt, sqrt, live) == ChaseResult(scaryChars[..], -1);
      }
    }

    /** One turn of the pursuer loop: pursuer i moves, then is tested. */
    method PursueOne(i: int, player: Vector2, dt: real, sqrt: real -> real) returns (caught: bool)
      requires Valid() && walls != null && 0 <= i < ScaryCharCount
      modifies scaryChars
      ensures var live := Collision.Live(walls, wallCount);
        var c' := Pursue(old(scaryChars[i]), player, dt, sqrt, live);
        && scaryChars[..] == old(scaryChars[..])[i := c']
        && caught == Catches(player, c')
    {
      var c := scaryChars[i];
      var charPos := Ground(c.position);
      var dir := Toward(charPos, player);
      var dist := sqrt(LengthSq(dir));
      ghost var live := Collision.Live(walls, wallCount);
      if dist > 0.001 {
        var moveStep := SeekStep(dir, dist, c.speed, dt);
        charPos := MoveAxisSeparated(charPos, moveStep, c.radius, walls, wallCount);
        scaryChars[i] := c.(position := c.position.(x := charPos.x, z := charPos.y));
        assert scaryChars[i] == Pursue(c, player, dt, sqrt, live);
      } else {
        assert c == Pursue(c, player, dt, sqrt, live);
      }
      caught := CircleCircleIntersect(player, PlayerRadius, charPos, c.radius);
    }
  }

  /** The game's maze, created all walls and then carved; null when the maze
      or its cells cannot be allocated. */
  method NewMaze(alloc: Allocations, rand: nat -> nat, k: nat) returns (m: Maze?, k': nat)
    ensures m == null <==> !(alloc.maze && alloc.cells)
    ensures m == null ==> k' == k
    ensures m != null ==>
      && fresh(m) && fresh(m.cells) && m.Valid()
      && m.width == MazeWidth && m.height == MazeHeight && m.cellSize == CellSize
      && m.startPos == Cell(0, 0) && m.exitPos == Cell(MazeWidth - 1, MazeHeight - 1)
      && (alloc.visited && alloc.stack ==> Perfect(MazeWidth, MazeHeight, m.cells[..]))
  {
    k' := k;
    m := MazeBuild.Create(MazeWidth, MazeHeight, CellSize, alloc.maze, alloc.cells);
    if m != null {
      k' := m.Generate(rand, k, alloc.visited, alloc.stack);
    }
  }

  /** What InitGame builds on a carved maze: a fresh buffer of MaxWalls wall
      rectangles holding the first rectangles of the maze, the torches placed
      along its walls, and one particle system per torch when the array for
      them can be allocated and there is at least one torch. */
  ghost predicate Furnished(m: Maze, alloc: Allocations, rand: nat -> nat, k: nat,
                            walls: array<WallRect>, wallCount: int, torches: array?<Torch>, torchCount: int,
                            systems: array?<ParticleSystem?>, k': nat)
    requires m.Valid()
    reads m, m.cells, walls, torches, systems
  {
    var all := AllRects(m.width, m.height, m.cellSize, m.cells[..]);
    var sides := Collected(m.width, m.height, m.cellSize, m.cells[..], m.height, 0);
    var placed := Place(sides, m.cellSize, MaxTorches, rand, k, []);
    && walls.Length == MaxWalls && wallCount == Min(MaxWalls, |all|) && walls[..wallCount] == all[..wallCount]
    && (|all| <= MaxWalls ==> walls[..wallCount] == AsWritten(m.width, m.height, m.cellSize, m.cells[..], MaxWalls))
    && (torches == null <==> !alloc.torches)
    && (torches == null ==> torchCount == 0 && k' == k)
    && (torches != null ==>
          torches.Length == MaxTorches && 0 <= torchCount <= MaxTorches
          && torches[..torchCount] == placed.torches && k' == placed.next)
    && (systems != null <==> torchCount > 0 && alloc.systems)
    && (systems != null ==>
          systems.Length == torchCount
          && forall i | 0 <= i < torchCount :: (systems[i] == null <==> !alloc.system(i) || !alloc.particles(i)))
  }

  /** On the game's 15×15 maze every wall rectangle fits in the MaxWalls
      buffer, so the capacity test of the scan as written never cuts a cell
      short and the buffer holds exactly the rectangles of the maze. */
  lemma GameWallsAsWritten(cells: seq<bv8>)
    requires |cells| == MazeWidth * MazeHeight
    ensures |AllRects(MazeWidth, MazeHeight, CellSize, cells)| <= 480 < MaxWalls
    ensures AsWritten(MazeWidth, MazeHeight, CellSize, cells, MaxWalls) == AllRects(MazeWidth, MazeHeight, CellSize, cells)
  {
    AllRectsBound(MazeWidth, MazeHeight, CellSize, cells);
    AsWrittenRoomy(MazeWidth, MazeHeight, CellSize, cells, MaxWalls);
  }

  /** The allocations of InitGame after the maze: walls, torches and flames. */
  method Furnish(m: Maze, alloc: Allocations, rand: nat -> nat, k: nat)
    returns (walls: array<WallRect>, wallCount: int, torches: array?<Torch>, torchCount: int,
             systems: array?<ParticleSystem?>, k': nat)
    requires m.Valid()
    ensures fresh(walls) && (torches != null ==> fresh(torches)) && (systems != null ==> fresh(systems))
    ensures 0 <= wallCount <= walls.Length
    ensures Furnished(m, alloc, rand, k, walls, wallCount, torches, torchCount, systems, k')
  {
    walls := new WallRect[MaxWalls];
    wallCount := GetWallRects(m, walls, MaxWalls);
    if |AllRects(m.width, m.height, m.cellSize, m.cells[..])| <= MaxWalls {
      AsWrittenRoomy(m.width, m.height, m.cellSize, m.cells[..], MaxWalls);
    }
    torches, torchCount, k' := Torches.Generate(m, true, MaxTorches, alloc.torches, rand, k);
    systems := null;
    if torchCount > 0 && alloc.systems {
      systems := CreateSystems(torchCount, alloc);
    }
  }

  /** One flame particle system per torch; a system whose allocation fails is
      a null slot. */
  method CreateSystems(n: int, alloc: Allocations) returns (systems: array<ParticleSystem?>)
    requires n >= 0
    ensures fresh(systems) && systems.Length == n
    ensures forall i | 0 <= i < n :: (systems[i] == null <==> !alloc.system(i) || !alloc.particles(i))
    ensures forall i | 0 <= i < n && systems[i] != null ::
      && systems[i].Valid() && systems[i].maxParticles == FlameParticles && systems[i].activeParticles == 0
  {
    systems := new ParticleSystem?[n](_ => null);
    for i := 0 to n
      invariant forall j | 0 <= j < i :: (systems[j] == null <==> !alloc.system(j) || !alloc.particles(j))
      invariant forall j | 0 <= j < i && systems[j] != null ::
        && systems[j].Valid() && systems[j].maxParticles == FlameParticles && systems[j].activeParticles == 0
    {
      systems[i] := Particles.Create(FlameParticles, alloc.system(i), alloc.particles(i));
    }
  }
}
