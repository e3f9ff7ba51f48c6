/** What randomized depth-first carving does to the wall masks of src/maze.c,
    stated over the mask bytes as a sequence: the shape invariants every maze
    keeps, the effect of one carve, the counting of passages and visited cells,
    and the invariant of the explicit-stack search. */
module MazeTopology {
  import opened MazeFlags
  import opened MazeGrid

  // ---------------------------------------------------------------- shape

  /** Every mask stays within the four flags (0..15). */
  ghost predicate MasksInRange(cells: seq<bv8>)
  {
    forall i :: 0 <= i < |cells| ==> cells[i] <= AllWalls
  }

  /** Adjacent cells agree about the wall between them. */
  ghost predicate Symmetric(width: int, height: int, cells: seq<bv8>)
    requires |cells| == width * height
  {
    && (forall x, y | 0 <= x < width - 1 && 0 <= y < height ::
          HasWall(width, height, cells, x, y, East) == HasWall(width, height, cells, x + 1, y, West))
    && (forall x, y | 0 <= x < width && 0 <= y < height - 1 ::
          HasWall(width, height, cells, x, y, South) == HasWall(width, height, cells, x, y + 1, North))
  }

  /** The outer boundary of the grid is walled on every side. */
  ghost predicate BoundaryClosed(width: int, height: int, cells: seq<bv8>)
    requires |cells| == width * height
  {
    && (forall x | 0 <= x < width ::
          HasWall(width, height, cells, x, 0, North) && HasWall(width, height, cells, x, height - 1, South))
    && (forall y | 0 <= y < height ::
          HasWall(width, height, cells, 0, y, West) && HasWall(width, height, cells, width - 1, y, East))
  }

  /** The shape every maze keeps, from creation on. */
  ghost predicate WellFormed(width: int, height: int, cells: seq<bv8>)
  {
    && width >= 1 && height >= 1 && |cells| == width * height
    && MasksInRange(cells)
    && Symmetric(width, height, cells)
    && BoundaryClosed(width, height, cells)
  }

  /** Every cell has all four walls: the state Maze_Create leaves. */
  ghost predicate AllClosed(cells: seq<bv8>)
  {
    forall i :: 0 <= i < |cells| ==> cells[i] == AllWalls
  }

  lemma {:induction false} AllClosedIsWellFormed(width: int, height: int, cells: seq<bv8>)
    requires width >= 1 && height >= 1 && |cells| == width * height && AllClosed(cells)
    ensures WellFormed(width, height, cells)
    ensures forall x, y, d | IsDirection(d) :: HasWall(width, height, cells, x, y, d)
  {
    forall x, y, d | IsDirection(d) ensures HasWall(width, height, cells, x, y, d) {
      var i := CellIndex(width, height, x, y);
      if i >= 0 {
        assert cells[i] == AllWalls;
      }
    }
  }

  // ---------------------------------------------------------------- carving

  /** The two mask updates of one carve: clear the wall of (x, y) facing direction
      k, and the opposite wall of the neighbour it faces. */
  function Carve(width: int, height: int, cells: seq<bv8>, x: int, y: int, k: int): (r: seq<bv8>)
    requires |cells| == width * height && 0 <= k < 4
    requires InGrid(width, height, x, y) && InGrid(width, height, x + DX[k], y + DY[k])
    ensures |r| == |cells|
  {
    var c := CellIndex(width, height, x, y);
    var n := CellIndex(width, height, x + DX[k], y + DY[k]);
    cells[c := cells[c] & !Dirs[k]][n := cells[n] & !Opposite[k]]
  }

  lemma ClearBit(m: bv8, cleared: bv8, d: bv8)
    requires IsDirection(cleared) && IsDirection(d)
    ensures ((m & !cleared) & d != 0) == (m & d != 0 && d != cleared)
  {
  }

  /** A carve removes exactly two walls, the two faces of one shared wall, and
      leaves every other wall where it was. */
  lemma CarveEffect(width: int, height: int, cells: seq<bv8>, x: int, y: int, k: int,
                    x': int, y': int, d: bv8)
    requires |cells| == width * height && 0 <= k < 4 && IsDirection(d)
    requires InGrid(width, height, x, y) && InGrid(width, height, x + DX[k], y + DY[k])
    ensures HasWall(width, height, Carve(width, height, cells, x, y, k), x', y', d) ==
        (&& HasWall(width, height, cells, x', y', d)
         && !(x' == x && y' == y && d == Dirs[k])
         && !(x' == x + DX[k] && y' == y + DY[k] && d == Opposite[k]))
  {
    var nx, ny := x + DX[k], y + DY[k];
    var dc, dn := Dirs[k], Opposite[k];
    TablesAligned(k);
    ClearPairAt(width, height, cells, x, y, dc, nx, ny, dn, x', y', d);
    assert Carve(width, height, cells, x, y, k) == ClearPair(width, height, cells, x, y, dc, nx, ny, dn);
  }

  function ClearPair(width: int, height: int, cells: seq<bv8>, x: int, y: int, dc: bv8,
                     nx: int, ny: int, dn: bv8): (r: seq<bv8>)
    requires |cells| == width * height
    requires InGrid(width, height, x, y) && InGrid(width, height, nx, ny)
    ensures |r| == |cells|
  {
    var c := CellIndex(width, height, x, y);
    var n := CellIndex(width, height, nx, ny);
    cells[c := cells[c] & !dc][n := cells[n] & !dn]
  }

  lemma ClearPairAt(width: int, height: int, cells: seq<bv8>, x: int, y: int, dc: bv8,
                    nx: int, ny: int, dn: bv8, x': int, y': int, d: bv8)
    requires |cells| == width * height && IsDirection(dc) && IsDirection(dn) && IsDirection(d)
    requires InGrid(width, height, x, y) && InGrid(width, height, nx, ny) && (x, y) != (nx, ny)
    ensures HasWall(width, height, ClearPair(width, height, cells, x, y, dc, nx, ny, dn), x', y', d) ==
        (&& HasWall(width, height, cells, x', y', d)
         && !(x' == x && y' == y && d == dc)
         && !(x' == nx && y' == ny && d == dn))
  {
    if InGrid(width, height, x', y') {
      SameCellSameIndex(width, height, x, y, nx, ny);
      SameCellSameIndex(width, height, x, y, x', y');
      SameCellSameIndex(width, height, nx, ny, x', y');
      CarveMasks(cells, CellIndex(width, height, x, y), CellIndex(width, height, nx, ny),
                 CellIndex(width, height, x', y'), dc, dn, d);
    }
  }

  /** The byte-level effect of the two mask updates of a carve on bit d of byte i. */
  lemma CarveMasks(cells: seq<bv8>, c: int, n: int, i: int, dc: bv8, dn: bv8, d: bv8)
    requires 0 <= c < |cells| && 0 <= n < |cells| && c != n && i < |cells|
    requires IsDirection(dc) && IsDirection(dn) && IsDirection(d)
    ensures 0 <= i ==> ((cells[c := cells[c] & !dc][n := cells[n] & !dn][i] & d != 0) ==
      (cells[i] & d != 0 && !(i == c && d == dc) && !(i == n && d == dn)))
  {
    if 0 <= i {
      if i == c {
        ClearBit(cells[c], dc, d);
      } else if i == n {
        ClearBit(cells[n], dn, d);
      }
    }
  }

  /** Carving toward an in-grid neighbour keeps the shape: masks stay in range,
      walls stay symmetric, and the boundary is never opened. */
  lemma CarvePreservesShape(width: int, height: int, cells: seq<bv8>, x: int, y: int, k: int)
    requires WellFormed(width, height, cells) && 0 <= k < 4
    requires InGrid(width, height, x, y) && InGrid(width, height, x + DX[k], y + DY[k])
    ensures WellFormed(width, height, Carve(width, height, cells, x, y, k))
  {
    CarveKeepsMasksInRange(width, height, cells, x, y, k);
    CarveKeepsSymmetric(width, height, cells, x, y, k);
    CarveKeepsBoundary(width, height, cells, x, y, k);
  }

  lemma CarveKeepsMasksInRange(width: int, height: int, cells: seq<bv8>, x: int, y: int, k: int)
    requires |cells| == width * height && MasksInRange(cells) && 0 <= k < 4
    requires InGrid(width, height, x, y) && InGrid(width, height, x + DX[k], y + DY[k])
    ensures MasksInRange(Carve(width, height, cells, x, y, k))
  {
    var r := Carve(width, height, cells, x, y, k);
    var c := CellIndex(width, height, x, y);
    var n := CellIndex(width, height, x + DX[k], y + DY[k]);
    forall i | 0 <= i < |r| ensures r[i] <= AllWalls {
      if i == n {
        ClearKeepsRange(cells[n], Opposite[k]);
      } else if i == c {
        ClearKeepsRange(cells[c], Dirs[k]);
      }
    }
  }

  lemma ClearKeepsRange(m: bv8, d: bv8)
    requires m <= AllWalls
    ensures m & !d <= AllWalls
  {
  }

  lemma CarveKeepsSymmetric(width: int, height: int, cells: seq<bv8>, x: int, y: int, k: int)
    requires |cells| == width * height && Symmetric(width, height, cells) && 0 <= k < 4
    requires InGrid(width, height, x, y) && InGrid(width, height, x + DX[k], y + DY[k])
    ensures Symmetric(width, height, Carve(width, height, cells, x, y, k))
  {
    var r := Carve(width, height, cells, x, y, k);
    TablesAligned(k);
    forall x', y' | 0 <= x' < width - 1 && 0 <= y' < height
      ensures HasWall(width, height, r, x', y', East) == HasWall(width, height, r, x' + 1, y', West)
    {
      CarveEffect(width, height, cells, x, y, k, x', y', East);
      CarveEffect(width, height, cells, x, y, k, x' + 1, y', West);
    }
    forall x', y' | 0 <= x' < width && 0 <= y' < height - 1
      ensures HasWall(width, height, r, x', y', South) == HasWall(width, height, r, x', y' + 1, North)
    {
      CarveEffect(width, height, cells, x, y, k, x', y', South);
      CarveEffect(width, height, cells, x, y, k, x', y' + 1, North);
    }
  }

  lemma CarveKeepsBoundary(width: int, height: int, cells: seq<bv8>, x: int, y: int, k: int)
    requires |cells| == width * height && BoundaryClosed(width, height, cells) && 0 <= k < 4
    requires InGrid(width, height, x, y) && InGrid(width, height, x + DX[k], y + DY[k])
    ensures BoundaryClosed(width, height, Carve(width, height, cells, x, y, k))
  {
    var r := Carve(width, height, cells, x, y, k);
    TablesAligned(k);
    forall x' | 0 <= x' < width
      ensures HasWall(width, height, r, x', 0, North) && HasWall(width, height, r, x', height - 1, South)
    {
      CarveEffect(width, height, cells, x, y, k, x', 0, North);
      CarveEffect(width, height, cells, x, y, k, x', height - 1, South);
    }
    forall y' | 0 <= y' < height
      ensures HasWall(width, height, r, 0, y', West) && HasWall(width, height, r, width - 1, y', East)
    {
      CarveEffect(width, height, cells, x, y, k, 0, y', West);
      CarveEffect(width, height, cells, x, y, k, width - 1, y', East);
    }
  }

  // ---------------------------------------------------------------- counting

  /** The passages a mask opens to the east and to the south. Counting these two
      sides only counts every passage between two cells exactly once. */
  function Openings(m: bv8): nat
  {
    (if m & East == 0 then 1 else 0) + (if m & South == 0 then 1 else 0)
  }

  /** The number of open passages of a grid. */
  function PassageCount(cells: seq<bv8>): nat
  {
    if cells == [] then 0 else PassageCount(cells[..|cells| - 1]) + Openings(cells[|cells| - 1])
  }

  lemma {:induction false} PassageCountUpdate(cells: seq<bv8>, i: int, v: bv8)
    requires 0 <= i < |cells|
    ensures PassageCount(cells[i := v]) == PassageCount(cells) - Openings(cells[i]) + Openings(v)
  {
    var last := |cells| - 1;
    if i < last {
      assert cells[i := v][..last] == cells[..last][i := v];
      PassageCountUpdate(cells[..last], i, v);
    } else {
      assert cells[i := v][..last] == cells[..last];
    }
  }

  lemma {:induction false} ClosedHasNoPassages(cells: seq<bv8>)
    requires AllClosed(cells)
    ensures PassageCount(cells) == 0
  {
    if cells != [] {
      ClosedHasNoPassages(cells[..|cells| - 1]);
    }
  }

  /** The number of cells marked visited. */
  function CountTrue(s: seq<bool>): nat
  {
    if s == [] then 0 else CountTrue(s[..|s| - 1]) + (if s[|s| - 1] then 1 else 0)
  }

  lemma {:induction false} CountTrueUpdate(s: seq<bool>, i: int)
    requires 0 <= i < |s| && !s[i]
    ensures CountTrue(s[i := true]) == CountTrue(s) + 1
  {
    var last := |s| - 1;
    if i < last {
      assert s[i := true][..last] == s[..last][i := true];
      CountTrueUpdate(s[..last], i);
    } else {
      assert s[i := true][..last] == s[..last];
    }
  }

  /** At most every cell is visited; fewer while some cell is not; all of them
      exactly when none is left. */
  lemma {:induction false} CountTrueBounds(s: seq<bool>)
    ensures CountTrue(s) <= |s|
    ensures (exists i :: 0 <= i < |s| && !s[i]) ==> CountTrue(s) < |s|
    ensures (forall i :: 0 <= i < |s| ==> s[i]) ==> CountTrue(s) == |s|
  {
    if s != [] {
      var init := s[..|s| - 1];
      CountTrueBounds(init);
      if exists i :: 0 <= i < |s| && !s[i] {
        var i :| 0 <= i < |s| && !s[i];
        if i < |s| - 1 {
          assert !init[i];
        }
      }
      if forall i :: 0 <= i < |s| ==> s[i] {
        assert forall i :: 0 <= i < |init| ==> init[i] by {
          forall i | 0 <= i < |init| ensures init[i] {
            assert init[i] == s[i];
          }
        }
      }
    }
  }

  lemma {:induction false} CountTrueSingle(n: nat)
    requires n >= 1
    ensures CountTrue(seq(n, i => i == 0)) == 1
  {
    var s := seq(n, i => i == 0);
    if n == 1 {
      assert s[..0] == [];
    } else {
      assert s[..n - 1] == seq(n - 1, i => i == 0);
      CountTrueSingle(n - 1);
    }
  }

  // ---------------------------------------------------------------- reachability

  /** (x, y) reaches the start cell (0, 0) through at most k open passages. */
  ghost predicate Connected(width: int, height: int, cells: seq<bv8>, x: int, y: int, k: nat)
    requires |cells| == width * height
    decreases k
  {
    || (x == 0 && y == 0)
    || (k > 0 &&
         ((!HasWall(width, height, cells, x, y, North) && Connected(width, height, cells, x, y - 1, k - 1))
         || (!HasWall(width, height, cells, x, y, East) && Connected(width, height, cells, x + 1, y, k - 1))
         || (!HasWall(width, height, cells, x, y, South) && Connected(width, height, cells, x, y + 1, k - 1))
         || (!HasWall(width, height, cells, x, y, West) && Connected(width, height, cells, x - 1, y, k - 1))))
  }

  /** Every wall open in `cells` is open in `cells'`. */
  ghost predicate OnlyOpens(width: int, height: int, cells: seq<bv8>, cells': seq<bv8>)
    requires |cells| == width * height && |cells'| == width * height
  {
    forall x, y, d | IsDirection(d) && !HasWall(width, height, cells, x, y, d) ::
      !HasWall(width, height, cells', x, y, d)
  }

  lemma {:induction false} ConnectedOpens(width: int, height: int, cells: seq<bv8>, cells': seq<bv8>, x: int, y: int, k: nat)
    requires |cells| == width * height && |cells'| == width * height
    requires OnlyOpens(width, height, cells, cells')
    requires Connected(width, height, cells, x, y, k)
    ensures Connected(width, height, cells', x, y, k)
    decreases k
  {
    if !(x == 0 && y == 0) {
      if !HasWall(width, height, cells, x, y, North) && Connected(width, height, cells, x, y - 1, k - 1) {
        ConnectedOpens(width, height, cells, cells', x, y - 1, k - 1);
      } else if !HasWall(width, height, cells, x, y, East) && Connected(width, height, cells, x + 1, y, k - 1) {
        ConnectedOpens(width, height, cells, cells', x + 1, y, k - 1);
      } else if !HasWall(width, height, cells, x, y, South) && Connected(width, height, cells, x, y + 1, k - 1) {
        ConnectedOpens(width, height, cells, cells', x, y + 1, k - 1);
      } else {
        ConnectedOpens(width, height, cells, cells', x - 1, y, k - 1);
      }
    }
  }

  lemma {:induction false} ConnectedLonger(width: int, height: int, cells: seq<bv8>, x: int, y: int, k: nat)
    requires |cells| == width * height
    requires Connected(width, height, cells, x, y, k)
    ensures Connected(width, height, cells, x, y, k + 1)
    decreases k
  {
    if !(x == 0 && y == 0) {
      if !HasWall(width, height, cells, x, y, North) && Connected(width, height, cells, x, y - 1, k - 1) {
        ConnectedLonger(width, height, cells, x, y - 1, k - 1);
      } else if !HasWall(width, height, cells, x, y, East) && Connected(width, height, cells, x + 1, y, k - 1) {
        ConnectedLonger(width, height, cells, x + 1, y, k - 1);
      } else if !HasWall(width, height, cells, x, y, South) && Connected(width, height, cells, x, y + 1, k - 1) {
        ConnectedLonger(width, height, cells, x, y + 1, k - 1);
      } else {
        ConnectedLonger(width, height, cells, x - 1, y, k - 1);
      }
    }
  }

  /** A perfect maze: well formed, exactly width*height - 1 passages, and every
      cell reachable from the start. A connected graph on n cells with n - 1
      edges is a spanning tree, so there is exactly one path between two cells. */
  ghost predicate Perfect(width: int, height: int, cells: seq<bv8>)
  {
    && WellFormed(width, height, cells)
    && PassageCount(cells) == width * height - 1
    && forall x, y | InGrid(width, height, x, y) :: Connected(width, height, cells, x, y, width * height - 1)
  }
}
