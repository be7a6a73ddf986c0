/** The cellular-automaton cave generator (CellularAutomataGenerator.cs).

    Cells are 0 (wall) and 1 (floor). The interior starts as random noise,
    then `simulationSteps` generations of a birth/death rule smooth it; each
    generation is computed into a fresh buffer from the previous grid alone.
    An optional mode inverts the interior after the fill and after every
    generation. The border ring is wall throughout. */
module Cave {
  import opened Grids
  import opened Rand

  // ---------------------------------------------------------------------
  // Neighbour count
  // ---------------------------------------------------------------------

  /** The k-th cell (0 <= k < 9) of the 3 × 3 box around (x, y), in the order
      the count visits it: nx outer, ny inner. Position 4 is (x, y) itself. */
  function BoxCell(x: int, y: int, k: int): Cell
  {
    (x - 1 + k / 3, y - 1 + k % 3)
  }

  /** What box position k adds to the count: nothing for the centre, 1 for a
      position outside the grid, 1 for a floor cell inside it. */
  function BoxTerm(g: Grid, w: int, h: int, x: int, y: int, k: int): (t: int)
    requires Shaped(g, w, h)
    ensures 0 <= t <= 1
    ensures k == 4 ==> t == 0
  {
    var c := BoxCell(x, y, k);
    if k == 4 then 0
    else if !InBounds(c.0, c.1, w, h) then 1
    else if g[c.0][c.1] == 1 then 1
    else 0
  }

  /** The count after visiting the first k box positions. */
  function BoxCount(g: Grid, w: int, h: int, x: int, y: int, k: nat): (c: nat)
    requires Shaped(g, w, h) && k <= 9
    ensures c <= k
    ensures k > 4 ==> c <= k - 1
  {
    if k == 0 then 0 else BoxCount(g, w, h, x, y, k - 1) + BoxTerm(g, w, h, x, y, k - 1)
  }

  /** The value `CountFloorNeighbors(x, y)` returns. */
  function FloorNeighbors(g: Grid, w: int, h: int, x: int, y: int): (c: nat)
    requires Shaped(g, w, h)
    ensures c <= 8
  {
    BoxCount(g, w, h, x, y, 9)
  }

  /** The Moore neighbours of (x, y) that lie in the grid and are floor. */
  ghost function MooreFloor(g: Grid, w: int, h: int, x: int, y: int): set<Cell>
    requires Shaped(g, w, h)
  {
    set nx, ny | x - 1 <= nx <= x + 1 && y - 1 <= ny <= y + 1 && (nx, ny) != (x, y)
                 && InBounds(nx, ny, w, h) && g[nx][ny] == 1 :: (nx, ny)
  }

  /** The floor cells among the first n box positions, all of which lie in
      the grid when (x, y) is an interior cell. */
  ghost function FloorAmongFirst(g: Grid, w: int, h: int, x: int, y: int, n: nat): set<Cell>
    requires Shaped(g, w, h) && 1 <= x < w - 1 && 1 <= y < h - 1 && n <= 9
  {
    set k | 0 <= k < n && k != 4 && g[BoxCell(x, y, k).0][BoxCell(x, y, k).1] == 1 :: BoxCell(x, y, k)
  }

  lemma BoxCellsDistinct(x: int, y: int, k1: int, k2: int)
    requires 0 <= k1 < 9 && 0 <= k2 < 9 && k1 != k2
    ensures BoxCell(x, y, k1) != BoxCell(x, y, k2)
  {
    assert k1 == 3 * (k1 / 3) + k1 % 3 && k2 == 3 * (k2 / 3) + k2 % 3;
  }

  lemma {:induction false} PrefixCountIsFloorCells(g: Grid, w: int, h: int, x: int, y: int, n: nat)
    requires Shaped(g, w, h) && 1 <= x < w - 1 && 1 <= y < h - 1 && n <= 9
    ensures BoxCount(g, w, h, x, y, n) == |FloorAmongFirst(g, w, h, x, y, n)|
  {
    if n > 0 {
      PrefixCountIsFloorCells(g, w, h, x, y, n - 1);
      FloorAmongSnoc(g, w, h, x, y, n);
    }
  }

  /** Box position n - 1 adds its cell to the floor cells of the first n - 1
      positions exactly when it counts, and that cell is new. */
  lemma FloorAmongSnoc(g: Grid, w: int, h: int, x: int, y: int, n: nat)
    requires Shaped(g, w, h) && 1 <= x < w - 1 && 1 <= y < h - 1 && 0 < n <= 9
    ensures BoxCell(x, y, n - 1) !in FloorAmongFirst(g, w, h, x, y, n - 1)
    ensures FloorAmongFirst(g, w, h, x, y, n)
            == FloorAmongFirst(g, w, h, x, y, n - 1) + (if BoxTerm(g, w, h, x, y, n - 1) == 1 then {BoxCell(x, y, n - 1)} else {})
  {
    var c := BoxCell(x, y, n - 1);
    forall k | 0 <= k < n - 1 ensures BoxCell(x, y, k) != c {
      BoxCellsDistinct(x, y, k, n - 1);
    }
  }

  /** For an interior cell no box position lies outside the grid, so the
      out-of-bounds policy of the count never applies: the count is the number
      of Moore neighbours that are floor. */
  lemma InteriorCountIsMooreFloor(g: Grid, w: int, h: int, x: int, y: int)
    requires Shaped(g, w, h) && 1 <= x < w - 1 && 1 <= y < h - 1
    ensures FloorNeighbors(g, w, h, x, y) == |MooreFloor(g, w, h, x, y)|
  {
    PrefixCountIsFloorCells(g, w, h, x, y, 9);
    var m := MooreFloor(g, w, h, x, y);
    var f := FloorAmongFirst(g, w, h, x, y, 9);
    forall c | c in m ensures c in f {
      var k := 3 * (c.0 - x + 1) + (c.1 - y + 1);
      assert BoxCell(x, y, k) == c;
    }
    forall c | c in f ensures c in m {
      var k :| 0 <= k < 9 && k != 4 && g[BoxCell(x, y, k).0][BoxCell(x, y, k).1] == 1 && BoxCell(x, y, k) == c;
    }
    assert m == f;
  }

  /** The count treats every position outside the grid as floor: the corner
      (0, 0) has five such positions, so its count is at least 5 whatever the
      grid holds. */
  lemma CornerCountsOutsideAsFloor(g: Grid, w: int, h: int)
    requires Shaped(g, w, h)
    ensures FloorNeighbors(g, w, h, 0, 0) >= 5
  {
    assert BoxCount(g, w, h, 0, 0, 1) == 1 by { assert BoxTerm(g, w, h, 0, 0, 0) == 1; }
    assert BoxCount(g, w, h, 0, 0, 2) == 2 by { assert BoxTerm(g, w, h, 0, 0, 1) == 1; }
    assert BoxCount(g, w, h, 0, 0, 3) == 3 by { assert BoxTerm(g, w, h, 0, 0, 2) == 1; }
    assert BoxCount(g, w, h, 0, 0, 4) == 4 by { assert BoxTerm(g, w, h, 0, 0, 3) == 1; }
    assert BoxCount(g, w, h, 0, 0, 6) >= 4;
    assert BoxCount(g, w, h, 0, 0, 7) >= 5 by { assert BoxTerm(g, w, h, 0, 0, 6) == 1; }
    assert BoxCount(g, w, h, 0, 0, 9) >= 5;
  }

  // ---------------------------------------------------------------------
  // One generation, inversion, the whole run
  // ---------------------------------------------------------------------

  /** The new value of cell (x, y): border cells are wall; an interior floor
      cell dies below `deathLimit` floor neighbours; an interior wall cell is
      born above `birthLimit`. */
  function NextCell(g: Grid, w: int, h: int, birthLimit: int, deathLimit: int, x: int, y: int): int
    requires Shaped(g, w, h) && InBounds(x, y, w, h)
  {
    if OnBorder(x, y, w, h) then 0
    else
      var n := FloorNeighbors(g, w, h, x, y);
      if g[x][y] == 1 then (if n < deathLimit then 0 else 1)
      else (if n > birthLimit then 1 else 0)
  }

  /** One generation, every cell computed from `g` alone. */
  function Step(g: Grid, w: int, h: int, birthLimit: int, deathLimit: int): (r: Grid)
    requires Shaped(g, w, h)
    ensures Shaped(r, w, h)
    ensures forall x, y | InBounds(x, y, w, h) :: r[x][y] == NextCell(g, w, h, birthLimit, deathLimit, x, y)
    ensures Binary(r, w, h) && BorderWall(r, w, h)
  {
    seq(w, x requires 0 <= x < w =>
      seq(h, y requires 0 <= y < h => NextCell(g, w, h, birthLimit, deathLimit, x, y)))
  }

  /** The birth/death rule for an interior cell. */
  lemma StepRule(g: Grid, w: int, h: int, birthLimit: int, deathLimit: int, x: int, y: int)
    requires Shaped(g, w, h) && 1 <= x < w - 1 && 1 <= y < h - 1
    ensures var r := Step(g, w, h, birthLimit, deathLimit);
            var n := FloorNeighbors(g, w, h, x, y);
            && (g[x][y] == 1 ==> (r[x][y] == 1 <==> n >= deathLimit))
            && (g[x][y] != 1 ==> (r[x][y] == 1 <==> n > birthLimit))
  {
  }

  /** The whole grid with every interior cell flipped (1 becomes 0, anything
      else becomes 1) and the border kept. */
  function Invert(g: Grid, w: int, h: int): (r: Grid)
    requires Shaped(g, w, h)
    ensures Shaped(r, w, h)
    ensures forall x, y | InBounds(x, y, w, h) ::
              r[x][y] == if OnBorder(x, y, w, h) then g[x][y] else if g[x][y] == 1 then 0 else 1
  {
    seq(w, x requires 0 <= x < w =>
      seq(h, y requires 0 <= y < h =>
        if OnBorder(x, y, w, h) then g[x][y] else if g[x][y] == 1 then 0 else 1))
  }

  /** Inversion keeps the border and keeps the grid binary. */
  lemma InvertKeepsBorderAndBinary(g: Grid, w: int, h: int)
    requires Shaped(g, w, h)
    ensures forall x, y | InBounds(x, y, w, h) && OnBorder(x, y, w, h) :: Invert(g, w, h)[x][y] == g[x][y]
    ensures BorderWall(g, w, h) ==> BorderWall(Invert(g, w, h), w, h)
    ensures Binary(g, w, h) ==> Binary(Invert(g, w, h), w, h)
  {
  }

  /** On a binary grid, inverting twice gives the grid back. */
  lemma InvertTwice(g: Grid, w: int, h: int)
    requires Shaped(g, w, h) && Binary(g, w, h)
    ensures Invert(Invert(g, w, h), w, h) == g
  {
    Ext(Invert(Invert(g, w, h), w, h), g, w, h);
  }

  /** On a cell holding neither 0 nor 1, inverting twice does not give the
      cell back: the involution needs a binary grid. */
  lemma InvertTwiceNeedsBinary(g: Grid, w: int, h: int)
    requires Shaped(g, w, h) && 3 <= w && 3 <= h && g[1][1] == 2
    ensures Invert(Invert(g, w, h), w, h) != g
  {
    assert Invert(Invert(g, w, h), w, h)[1][1] == 0;
  }

  /** One iteration of the simulation loop. */
  function Generation(g: Grid, w: int, h: int, birthLimit: int, deathLimit: int, invert: bool): (r: Grid)
    requires Shaped(g, w, h)
    ensures Shaped(r, w, h)
    ensures Binary(r, w, h) && BorderWall(r, w, h)
  {
    var s := Step(g, w, h, birthLimit, deathLimit);
    InvertKeepsBorderAndBinary(s, w, h);
    if invert then Invert(s, w, h) else s
  }

  /** The grid after `steps` iterations of the simulation loop. */
  function Simulate(g: Grid, w: int, h: int, birthLimit: int, deathLimit: int, invert: bool, steps: int): (r: Grid)
    requires Shaped(g, w, h)
    ensures Shaped(r, w, h)
    decreases steps
  {
    if steps <= 0 then g
    else Generation(Simulate(g, w, h, birthLimit, deathLimit, invert, steps - 1), w, h, birthLimit, deathLimit, invert)
  }

  /** Border cells are wall after every iteration, with or without inversion,
      and the grid stays binary. */
  lemma {:induction false} SimulateKeepsBorderWall(g: Grid, w: int, h: int, birthLimit: int, deathLimit: int, invert: bool, steps: int)
    requires Shaped(g, w, h) && Binary(g, w, h) && BorderWall(g, w, h)
    ensures var r := Simulate(g, w, h, birthLimit, deathLimit, invert, steps);
            Binary(r, w, h) && BorderWall(r, w, h)
    decreases steps
  {
  }

  /** Running `a` iterations and then `b` more is running `a + b`. */
  lemma {:induction false} SimulateAdds(g: Grid, w: int, h: int, birthLimit: int, deathLimit: int, invert: bool, a: nat, b: nat)
    requires Shaped(g, w, h)
    ensures Simulate(Simulate(g, w, h, birthLimit, deathLimit, invert, a), w, h, birthLimit, deathLimit, invert, b)
            == Simulate(g, w, h, birthLimit, deathLimit, invert, a + b)
    decreases b
  {
    if b > 0 {
      SimulateAdds(g, w, h, birthLimit, deathLimit, invert, a, b - 1);
    }
  }

  // ---------------------------------------------------------------------
  // Wall removal
  // ---------------------------------------------------------------------

  /** `RemoveWallIfFloor`'s test: the wall of a tile facing `(nx, ny)` is
      removed exactly when that neighbour lies in the grid and is floor. */
  predicate OpensToward(g: Grid, w: int, h: int, nx: int, ny: int): (r: bool)
    requires Shaped(g, w, h)
    ensures r ==> InBounds(nx, ny, w, h) && g[nx][ny] != 0
  {
    InBounds(nx, ny, w, h) && g[nx][ny] == 1
  }

  /** On a grid whose border is wall, no wall facing the border ring or the
      outside of the map is ever removed. */
  lemma OuterWallsStay(g: Grid, w: int, h: int, nx: int, ny: int)
    requires Shaped(g, w, h) && BorderWall(g, w, h)
    requires !InBounds(nx, ny, w, h) || OnBorder(nx, ny, w, h)
    ensures !OpensToward(g, w, h, nx, ny)
  {
  }

  // ---------------------------------------------------------------------
  // The generator
  // ---------------------------------------------------------------------

  class CaveGenerator {
    const mapWidth: int
    const mapHeight: int
    /** `initialFloorChance`, in percent. */
    const initialFloorChance: int
    const simulationSteps: int
    const birthLimit: int
    const deathLimit: int
    const invertFloorsAndWalls: bool
    const rng: Random
    /** 0 = wall, 1 = floor. */
    var mapGrid: array2<int>

    ghost predicate Valid()
      reads this
    {
      mapGrid.Length0 == mapWidth && mapGrid.Length1 == mapHeight
    }

    /** The generator as `Start` leaves it before `InitializeMap`: the grid is
        allocated and all wall. */
    constructor (mapWidth: nat, mapHeight: nat, initialFloorChance: int, simulationSteps: int,
                 birthLimit: int, deathLimit: int, invertFloorsAndWalls: bool, rng: Random)
      ensures Valid() && fresh(mapGrid)
      ensures this.mapWidth == mapWidth && this.mapHeight == mapHeight
      ensures this.initialFloorChance == initialFloorChance && this.simulationSteps == simulationSteps
      ensures this.birthLimit == birthLimit && this.deathLimit == deathLimit
      ensures this.invertFloorsAndWalls == invertFloorsAndWalls && this.rng == rng
      ensures forall x, y | InBounds(x, y, mapWidth, mapHeight) :: mapGrid[x, y] == 0
    {
      this.mapWidth := mapWidth;
      this.mapHeight := mapHeight;
      this.initialFloorChance := initialFloorChance;
      this.simulationSteps := simulationSteps;
      this.birthLimit := birthLimit;
      this.deathLimit := deathLimit;
      this.invertFloorsAndWalls := invertFloorsAndWalls;
      this.rng := rng;
      mapGrid := new int[mapWidth, mapHeight]((x, y) => 0);
    }

    /** Fills the border with wall and every interior cell with floor when its
        own draw falls under `initialFloorChance`, then inverts the interior
        in inverted mode. `drawOf` records which draw decided each interior
        cell; no draw decides two cells. */
    method InitializeMap() returns (ghost drawOf: map<Cell, nat>)
      requires Valid()
      modifies mapGrid, rng
      ensures Valid()
      ensures BorderWall(View(mapGrid), mapWidth, mapHeight) && Binary(View(mapGrid), mapWidth, mapHeight)
      ensures forall c | c in drawOf :: old(rng.position) <= drawOf[c] < rng.position
      ensures forall c, d | c in drawOf && d in drawOf && c != d :: drawOf[c] != drawOf[d]
      ensures forall x, y | InBounds(x, y, mapWidth, mapHeight) && !OnBorder(x, y, mapWidth, mapHeight) ::
                (x, y) in drawOf &&
                mapGrid[x, y] == if (rng.draws(drawOf[(x, y)]) % 100 < initialFloorChance) != invertFloorsAndWalls then 1 else 0
    {
      drawOf := FillRandom();
      if invertFloorsAndWalls {
        ghost var before := View(mapGrid);
        InvertInteriorTiles();
        assert forall i, j | InBounds(i, j, mapWidth, mapHeight) :: mapGrid[i, j] == Invert(before, mapWidth, mapHeight)[i][j];
      }
    }

    /** The loops of `InitializeMap`: the border ring is wall and each
        interior cell is floor when its own draw falls under
        `initialFloorChance`. */
    method FillRandom() returns (ghost drawOf: map<Cell, nat>)
      requires Valid()
      modifies mapGrid, rng
      ensures Valid()
      ensures BorderWall(View(mapGrid), mapWidth, mapHeight) && Binary(View(mapGrid), mapWidth, mapHeight)
      ensures forall c | c in drawOf :: old(rng.position) <= drawOf[c] < rng.position
      ensures forall c, d | c in drawOf && d in drawOf && c != d :: drawOf[c] != drawOf[d]
      ensures forall x, y | InBounds(x, y, mapWidth, mapHeight) && !OnBorder(x, y, mapWidth, mapHeight) ::
                (x, y) in drawOf && mapGrid[x, y] == if rng.draws(drawOf[(x, y)]) % 100 < initialFloorChance then 1 else 0
    {
      drawOf := map[];
      var x := 0;
      while x < mapWidth
        invariant 0 <= x <= mapWidth
        invariant old(rng.position) <= rng.position
        invariant forall c | c in drawOf :: old(rng.position) <= drawOf[c] < rng.position
        invariant forall c, d | c in drawOf && d in drawOf && c != d :: drawOf[c] != drawOf[d]
        invariant forall i, j | 0 <= i < x && 0 <= j < mapHeight ::
                    if OnBorder(i, j, mapWidth, mapHeight) then mapGrid[i, j] == 0
                    else (i, j) in drawOf && mapGrid[i, j] == if rng.draws(drawOf[(i, j)]) % 100 < initialFloorChance then 1 else 0
      {
        var y := 0;
        while y < mapHeight
          invariant 0 <= y <= mapHeight
          invariant old(rng.position) <= rng.position
          invariant forall c | c in drawOf :: old(rng.position) <= drawOf[c] < rng.position
          invariant forall c, d | c in drawOf && d in drawOf && c != d :: drawOf[c] != drawOf[d]
          invariant forall i, j | (0 <= i < x && 0 <= j < mapHeight) || (i == x && 0 <= j < y) ::
                      if OnBorder(i, j, mapWidth, mapHeight) then mapGrid[i, j] == 0
                      else (i, j) in drawOf && mapGrid[i, j] == if rng.draws(drawOf[(i, j)]) % 100 < initialFloorChance then 1 else 0
        {
          if x == 0 || y == 0 || x == mapWidth - 1 || y == mapHeight - 1 {
            mapGrid[x, y] := 0;
          } else {
            drawOf := drawOf[(x, y) := rng.position];
            var floor := rng.Chance(initialFloorChance);
            mapGrid[x, y] := if floor then 1 else 0;
          }
          y := y + 1;
        }
        x := x + 1;
      }
    }

    /** `InvertInteriorTiles`: flips every interior cell in place. */
    method InvertInteriorTiles()
      requires Valid()
      modifies mapGrid
      ensures Valid()
      ensures View(mapGrid) == Invert(old(View(mapGrid)), mapWidth, mapHeight)
    {
      ghost var g0 := View(mapGrid);
      var x := 1;
      while x < mapWidth - 1
        invariant 1 <= x <= if mapWidth >= 2 then mapWidth - 1 else 1
        invariant forall i, j | InBounds(i, j, mapWidth, mapHeight) ::
                    mapGrid[i, j] == if 1 <= i < x then Invert(g0, mapWidth, mapHeight)[i][j] else g0[i][j]
      {
        var y := 1;
        while y < mapHeight - 1
          invariant 1 <= y <= if mapHeight >= 2 then mapHeight - 1 else 1
          invariant forall i, j | InBounds(i, j, mapWidth, mapHeight) ::
                      mapGrid[i, j] == if 1 <= i < x || (i == x && 1 <= j < y) then Invert(g0, mapWidth, mapHeight)[i][j] else g0[i][j]
        {
          mapGrid[x, y] := if mapGrid[x, y] == 1 then 0 else 1;
          y := y + 1;
        }
        x := x + 1;
      }
      Ext(View(mapGrid), Invert(g0, mapWidth, mapHeight), mapWidth, mapHeight);
    }

    /** `CountFloorNeighbors`: scans the 3 × 3 box around (x, y), skipping the
        centre, adding 1 for each position outside the grid and for each
        floor cell. */
    method CountFloorNeighbors(x: int, y: int) returns (count: int)
      requires Valid()
      ensures count == FloorNeighbors(View(mapGrid), mapWidth, mapHeight, x, y)
      ensures 0 <= count <= 8
    {
      ghost var g := View(mapGrid);
      count := 0;
      var nx := x - 1;
      while nx <= x + 1
        invariant x - 1 <= nx <= x + 2
        invariant count == BoxCount(g, mapWidth, mapHeight, x, y, 3 * (nx - x + 1))
      {
        var ny := y - 1;
        while ny <= y + 1
          invariant y - 1 <= ny <= y + 2
          invariant count == BoxCount(g, mapWidth, mapHeight, x, y, 3 * (nx - x + 1) + (ny - y + 1))
        {
          ghost var k := 3 * (nx - x + 1) + (ny - y + 1);
          assert BoxCell(x, y, k) == (nx, ny);
          if nx == x && ny == y {
          } else if nx < 0 || ny < 0 || nx >= mapWidth || ny >= mapHeight {
            count := count + 1;
          } else if mapGrid[nx, ny] == 1 {
            count := count + 1;
          }
          ny := ny + 1;
        }
        nx := nx + 1;
      }
    }

    /** The loop body of `RunSimulationAnimated`: a fresh buffer filled from
        the current grid, which is left untouched. */
    method NextMap() returns (newMap: array2<int>)
      requires Valid()
      ensures fresh(newMap)
      ensures newMap.Length0 == mapWidth && newMap.Length1 == mapHeight
      ensures View(newMap) == Step(View(mapGrid), mapWidth, mapHeight, birthLimit, deathLimit)
    {
      ghost var g := View(mapGrid);
      newMap := new int[mapWidth, mapHeight];
      var x := 0;
      while x < mapWidth
        invariant 0 <= x <= mapWidth
        invariant forall i, j | 0 <= i < x && 0 <= j < mapHeight ::
                    newMap[i, j] == NextCell(g, mapWidth, mapHeight, birthLimit, deathLimit, i, j)
      {
        var y := 0;
        while y < mapHeight
          invariant 0 <= y <= mapHeight
          invariant forall i, j | (0 <= i < x && 0 <= j < mapHeight) || (i == x && 0 <= j < y) ::
                      newMap[i, j] == NextCell(g, mapWidth, mapHeight, birthLimit, deathLimit, i, j)
        {
          if x == 0 || y == 0 || x == mapWidth - 1 || y == mapHeight - 1 {
            newMap[x, y] := 0;
          } else {
            var floorNeighbors := CountFloorNeighbors(x, y);
            if mapGrid[x, y] == 1 {
              newMap[x, y] := if floorNeighbors < deathLimit then 0 else 1;
            } else {
              newMap[x, y] := if floorNeighbors > birthLimit then 1 else 0;
            }
          }
          y := y + 1;
        }
        x := x + 1;
      }
      Ext(View(newMap), Step(g, mapWidth, mapHeight, birthLimit, deathLimit), mapWidth, mapHeight);
    }

    /** `RunSimulationAnimated` without its timing: `simulationSteps`
        generations, each replacing the grid by the next buffer and inverting
        it in inverted mode. */
    method RunSimulation()
      requires Valid()
      modifies this
      ensures Valid()
      ensures View(mapGrid) == Simulate(old(View(mapGrid)), mapWidth, mapHeight, birthLimit, deathLimit,
                                        invertFloorsAndWalls, simulationSteps)
    {
      ghost var g0 := View(mapGrid);
      var step := 0;
      while step < simulationSteps
        invariant Valid()
        invariant step <= simulationSteps || step == 0
        invariant View(mapGrid) == Simulate(g0, mapWidth, mapHeight, birthLimit, deathLimit, invertFloorsAndWalls, step)
      {
        var newMap := NextMap();
        mapGrid := newMap;
        if invertFloorsAndWalls {
          InvertInteriorTiles();
        }
        step := step + 1;
      }
    }

    /** `Start` after the grid is allocated: the random fill, then the
        simulation. The result is binary and its border is wall. */
    method Generate()
      requires Valid()
      modifies this, mapGrid, rng
      ensures Valid()
      ensures Binary(View(mapGrid), mapWidth, mapHeight) && BorderWall(View(mapGrid), mapWidth, mapHeight)
    {
      ghost var drawOf := InitializeMap();
      ghost var g0 := View(mapGrid);
      RunSimulation();
      SimulateKeepsBorderWall(g0, mapWidth, mapHeight, birthLimit, deathLimit, invertFloorsAndWalls, simulationSteps);
    }
  }
}
