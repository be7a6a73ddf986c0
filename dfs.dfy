/** The randomized depth-first maze (ModularDFSDungeonGenerator.cs).

    The carver walks the lattice of cells with two odd coordinates, starting
    at (1, 1). From each cell it tries the four directions in shuffled order;
    when the cell two steps away is strictly inside the map and still wall,
    it opens the cell in between and that cell, and recurses there. Optional
    rooms are stamped afterwards. 0 = wall, 1 = floor.

    Ghost state records the search: `visited` (the lattice cells reached),
    `parent` (the cell each was reached from) and `rank` (the order of
    discovery). With them the carved cells are shown to form a tree rooted at
    (1, 1) that covers every odd interior cell. */
module DfsMaze {
  import opened Grids
  import opened Rand

  const Start: Cell := (1, 1)

  /** up, right, down, left. */
  const Directions: seq<Cell> := [(0, 1), (1, 0), (0, -1), (-1, 0)]

  predicate Odd(v: int)
  {
    v % 2 == 1
  }

  /** Odd numbers are two apart. */
  lemma OddStep(v: int)
    requires Odd(v)
    ensures Odd(v - 2) && Odd(v + 2) && (v > 1 ==> v >= 3)
  {
    assert v == 2 * (v / 2) + 1;
  }

  /** `IsInside`: strictly inside the border ring, that is, a cell of the
      map that is not on its border. */
  predicate IsInside(p: Cell, w: int, h: int): (r: bool)
    ensures r <==> InBounds(p.0, p.1, w, h) && !OnBorder(p.0, p.1, w, h)
  {
    p.0 > 0 && p.1 > 0 && p.0 < w - 1 && p.1 < h - 1
  }

  /** `c + d * k`. */
  function Ahead(c: Cell, d: Cell, k: int): Cell
  {
    (c.0 + d.0 * k, c.1 + d.1 * k)
  }

  /** c is two cells from p along one axis. */
  predicate IsStep(p: Cell, c: Cell)
  {
    (c.0 == p.0 && (c.1 == p.1 + 2 || c.1 == p.1 - 2)) || (c.1 == p.1 && (c.0 == p.0 + 2 || c.0 == p.0 - 2))
  }

  /** Some edge of the search joins lattice cells a and b. */
  predicate Linked(parent: map<Cell, Cell>, a: Cell, b: Cell)
  {
    (a in parent && parent[a] == b) || (b in parent && parent[b] == a)
  }

  /** The cells the search has opened: the visited lattice cells and the
      cell between each of them and its parent. No cell with two even
      coordinates is ever opened. */
  predicate Carved(visited: set<Cell>, parent: map<Cell, Cell>, x: int, y: int)
  {
    if Odd(x) && Odd(y) then (x, y) in visited
    else if Odd(x) then Linked(parent, (x, y - 1), (x, y + 1))
    else if Odd(y) then Linked(parent, (x - 1, y), (x + 1, y))
    else false
  }

  /** visited/parent/rank form a search tree rooted at the start: every
      visited cell but the start has a visited parent one lattice step away
      that was discovered earlier. */
  ghost predicate SearchTree(w: int, h: int, visited: set<Cell>, parent: map<Cell, Cell>, rank: map<Cell, nat>)
  {
    && Start in visited
    && (forall c | c in visited :: InBounds(c.0, c.1, w, h) && Odd(c.0) && Odd(c.1))
    && parent.Keys == visited - {Start}
    && rank.Keys == visited
    && (forall c | c in parent :: parent[c] in visited && IsStep(parent[c], c) && rank[parent[c]] < rank[c])
    && (forall c | c in rank :: rank[c] < |visited|)
  }

  /** The floor cells of g are exactly the carved ones. */
  ghost predicate FloorIsCarved(g: Grid, w: int, h: int, visited: set<Cell>, parent: map<Cell, Cell>)
    requires Shaped(g, w, h)
  {
    forall x, y | InBounds(x, y, w, h) :: g[x][y] == 1 <==> Carved(visited, parent, x, y)
  }

  /** The grid is exactly the search tree. */
  ghost predicate MazeShape(g: Grid, w: int, h: int, visited: set<Cell>, parent: map<Cell, Cell>, rank: map<Cell, nat>)
    requires Shaped(g, w, h)
  {
    SearchTree(w, h, visited, parent, rank) && Binary(g, w, h) && FloorIsCarved(g, w, h, visited, parent)
  }

  /** Adding the edge current → next carves exactly `next` and the cell
      between. */
  lemma CarvedAfterStep(visited: set<Cell>, parent: map<Cell, Cell>, current: Cell, d: Cell, x: int, y: int)
    requires current in visited && Odd(current.0) && Odd(current.1) && d in Directions
    requires Ahead(current, d, 2) !in visited && parent.Keys <= visited && forall c | c in parent :: parent[c] in visited
    ensures Carved(visited + {Ahead(current, d, 2)}, parent[Ahead(current, d, 2) := current], x, y)
            <==> Carved(visited, parent, x, y) || (x, y) == Ahead(current, d, 1) || (x, y) == Ahead(current, d, 2)
  {
    var next := Ahead(current, d, 2);
    assert next !in parent;
  }

  /** The tree part of one carve step. */
  lemma TreeAfterStep(w: int, h: int, visited: set<Cell>, parent: map<Cell, Cell>, rank: map<Cell, nat>, current: Cell, d: Cell)
    requires SearchTree(w, h, visited, parent, rank)
    requires current in visited && d in Directions
    requires InBounds(Ahead(current, d, 2).0, Ahead(current, d, 2).1, w, h) && Ahead(current, d, 2) !in visited
    ensures var next := Ahead(current, d, 2);
            SearchTree(w, h, visited + {next}, parent[next := current], rank[next := |visited|])
  {
  }

  /** The grid part of one carve step: opening the two cells keeps the floor
      equal to the carved cells. */
  lemma FloorAfterStep(g: Grid, w: int, h: int, visited: set<Cell>, parent: map<Cell, Cell>, current: Cell, d: Cell)
    requires Shaped(g, w, h) && FloorIsCarved(g, w, h, visited, parent)
    requires current in visited && Odd(current.0) && Odd(current.1) && d in Directions
    requires Ahead(current, d, 2) !in visited && parent.Keys <= visited && forall c | c in parent :: parent[c] in visited
    requires InBounds(Ahead(current, d, 1).0, Ahead(current, d, 1).1, w, h)
    requires InBounds(Ahead(current, d, 2).0, Ahead(current, d, 2).1, w, h)
    ensures var between, next := Ahead(current, d, 1), Ahead(current, d, 2);
            FloorIsCarved(Set(Set(g, w, h, between.0, between.1, 1), w, h, next.0, next.1, 1), w, h,
                          visited + {next}, parent[next := current])
  {
    var between, next := Ahead(current, d, 1), Ahead(current, d, 2);
    var g' := Set(Set(g, w, h, between.0, between.1, 1), w, h, next.0, next.1, 1);
    forall x, y | InBounds(x, y, w, h)
      ensures g'[x][y] == 1 <==> Carved(visited + {next}, parent[next := current], x, y)
    {
      CarvedAfterStep(visited, parent, current, d, x, y);
      if (x, y) != between && (x, y) != next {
        assert g'[x][y] == g[x][y];
      }
    }
  }

  /** One carve from `current` toward d: the cell between and the cell two
      steps away were wall, and opening both extends the tree by one edge. */
  lemma CarveKeepsMaze(g: Grid, w: int, h: int, visited: set<Cell>, parent: map<Cell, Cell>, rank: map<Cell, nat>,
                       current: Cell, d: Cell)
    requires Shaped(g, w, h) && MazeShape(g, w, h, visited, parent, rank)
    requires current in visited && d in Directions
    requires IsInside(Ahead(current, d, 2), w, h) && g[Ahead(current, d, 2).0][Ahead(current, d, 2).1] == 0
    ensures var between, next := Ahead(current, d, 1), Ahead(current, d, 2);
            && IsInside(between, w, h) && between != next && next !in visited
            && g[between.0][between.1] == 0
            && var g' := Set(Set(g, w, h, between.0, between.1, 1), w, h, next.0, next.1, 1);
               MazeShape(g', w, h, visited + {next}, parent[next := current], rank[next := |visited|])
  {
    var between, next := Ahead(current, d, 1), Ahead(current, d, 2);
    StepParity(current, d);
    assert next !in visited by {
      assert Carved(visited, parent, next.0, next.1) == (next in visited);
    }
    BetweenIsWall(g, w, h, visited, parent, rank, current, d);
    TreeAfterStep(w, h, visited, parent, rank, current, d);
    FloorAfterStep(g, w, h, visited, parent, current, d);
    SetKeepsBinary(g, w, h, between.0, between.1, 1);
    SetKeepsBinary(Set(g, w, h, between.0, between.1, 1), w, h, next.0, next.1, 1);
  }

  /** A lattice step from a lattice cell lands on a lattice cell; the cell
      between has one even coordinate. */
  lemma StepParity(c: Cell, d: Cell)
    requires Odd(c.0) && Odd(c.1) && d in Directions
    ensures Odd(Ahead(c, d, 2).0) && Odd(Ahead(c, d, 2).1)
    ensures var m := Ahead(c, d, 1); if d.0 == 0 then m.0 == c.0 && !Odd(m.1) else m.1 == c.1 && !Odd(m.0)
  {
    OddStep(c.0);
    OddStep(c.1);
    assert c.0 == 2 * (c.0 / 2) + 1 && c.1 == 2 * (c.1 / 2) + 1;
  }

  /** The cell between `current` and an unvisited lattice neighbour is
      still wall. */
  lemma BetweenIsWall(g: Grid, w: int, h: int, visited: set<Cell>, parent: map<Cell, Cell>, rank: map<Cell, nat>,
                      current: Cell, d: Cell)
    requires Shaped(g, w, h) && MazeShape(g, w, h, visited, parent, rank)
    requires current in visited && d in Directions && Ahead(current, d, 2) !in visited
    requires IsInside(Ahead(current, d, 2), w, h)
    ensures IsInside(Ahead(current, d, 1), w, h) && Ahead(current, d, 1) != Ahead(current, d, 2)
    ensures g[Ahead(current, d, 1).0][Ahead(current, d, 1).1] == 0
  {
    var between, next := Ahead(current, d, 1), Ahead(current, d, 2);
    StepParity(current, d);
    assert !Linked(parent, current, next);
    if d.0 == 0 {
      assert (between.0, between.1 - 1) == current || (between.0, between.1 + 1) == current;
    } else {
      assert (between.0 - 1, between.1) == current || (between.0 + 1, between.1) == current;
    }
    assert !Carved(visited, parent, between.0, between.1);
  }

  lemma SetKeepsBinary(g: Grid, w: int, h: int, x: int, y: int, v: int)
    requires Shaped(g, w, h) && Binary(g, w, h) && InBounds(x, y, w, h) && (v == 0 || v == 1)
    ensures Binary(Set(g, w, h, x, y, v), w, h)
  {
    var g' := Set(g, w, h, x, y, v);
    forall i, j | InBounds(i, j, w, h) ensures g'[i][j] == 0 || g'[i][j] == 1 {
      if (i, j) != (x, y) {
        assert g'[i][j] == g[i][j];
      }
    }
  }

  /** The path from a visited cell back to the start through carved cells,
      each one step from the next. */
  ghost function PathToStart(g: Grid, w: int, h: int, visited: set<Cell>, parent: map<Cell, Cell>, rank: map<Cell, nat>,
                             c: Cell): (p: seq<Cell>)
    requires Shaped(g, w, h) && MazeShape(g, w, h, visited, parent, rank) && c in visited
    ensures |p| >= 1 && p[0] == c && p[|p| - 1] == Start
    ensures forall i | 0 <= i < |p| :: InBounds(p[i].0, p[i].1, w, h) && g[p[i].0][p[i].1] == 1
    ensures forall i | 0 <= i < |p| - 1 :: Adjacent(p[i], p[i + 1])
    decreases rank[c]
  {
    if c == Start then [Start]
    else
      var q := parent[c];
      var mid := EdgeCell(visited, parent, rank, w, h, c);
      assert g[mid.0][mid.1] == 1;
      var rest := PathToStart(g, w, h, visited, parent, rank, q);
      var p := [c, mid] + rest;
      assert forall i | 2 <= i < |p| :: p[i] == rest[i - 2];
      p
  }

  /** The cell between a visited cell and its parent: carved, and adjacent
      to both. */
  function EdgeCell(visited: set<Cell>, parent: map<Cell, Cell>, rank: map<Cell, nat>, w: int, h: int, c: Cell): (m: Cell)
    requires SearchTree(w, h, visited, parent, rank) && c in parent
    ensures InBounds(m.0, m.1, w, h) && Carved(visited, parent, m.0, m.1)
    ensures Adjacent(c, m) && Adjacent(m, parent[c])
  {
    var q := parent[c];
    assert q in visited;
    if c.0 == q.0 then
      (c.0, if c.1 < q.1 then c.1 + 1 else c.1 - 1)
    else
      (if c.0 < q.0 then c.0 + 1 else c.0 - 1, c.1)
  }

  predicate Adjacent(a: Cell, b: Cell)
  {
    (a.0 == b.0 && (a.1 - b.1 == 1 || b.1 - a.1 == 1)) || (a.1 == b.1 && (a.0 - b.0 == 1 || b.0 - a.0 == 1))
  }

  /** All four cells two steps from c that are inside the map are floor. */
  ghost predicate Closed(g: Grid, w: int, h: int, c: Cell)
    requires Shaped(g, w, h)
  {
    && OpenIfInside(g, w, h, (c.0, c.1 + 2)) && OpenIfInside(g, w, h, (c.0 + 2, c.1))
    && OpenIfInside(g, w, h, (c.0, c.1 - 2)) && OpenIfInside(g, w, h, (c.0 - 2, c.1))
  }

  ghost predicate OpenIfInside(g: Grid, w: int, h: int, n: Cell)
    requires Shaped(g, w, h)
  {
    IsInside(n, w, h) ==> g[n.0][n.1] == 1
  }

  /** When every visited cell is closed, the search reached every odd
      interior cell: the maze is perfect. */
  lemma {:induction false} ClosedMazeCoversLattice(g: Grid, w: int, h: int, visited: set<Cell>, x: int, y: int)
    requires Shaped(g, w, h) && Start in visited
    requires forall a, b | InBounds(a, b, w, h) && Odd(a) && Odd(b) && g[a][b] == 1 :: (a, b) in visited
    requires forall c | c in visited :: Closed(g, w, h, c)
    requires IsInside((x, y), w, h) && Odd(x) && Odd(y)
    ensures (x, y) in visited
    decreases x + y
  {
    if y > 1 {
      OddStep(y);
      ClosedMazeCoversLattice(g, w, h, visited, x, y - 2);
      assert Closed(g, w, h, (x, y - 2));
    } else if x > 1 {
      OddStep(x);
      ClosedMazeCoversLattice(g, w, h, visited, x - 2, y);
      assert Closed(g, w, h, (x - 2, y));
    } else {
      assert (x, y) == Start;
    }
  }

  // ---------------------------------------------------------------------
  // Spawned tiles and Fisher–Yates
  // ---------------------------------------------------------------------

  /** The keys of `spawnedTiles`, in insertion order, are exactly the floor
      cells, each once. */
  ghost predicate TilesMatch(g: Grid, w: int, h: int, s: seq<Cell>)
    requires Shaped(g, w, h)
  {
    && (forall i, j | 0 <= i < j < |s| :: s[i] != s[j])
    && (forall i | 0 <= i < |s| :: InBounds(s[i].0, s[i].1, w, h) && g[s[i].0][s[i].1] == 1)
    && (forall x, y | InBounds(x, y, w, h) && g[x][y] == 1 :: (x, y) in s)
  }

  /** `SpawnTile(pos)` on the key list: a key is added once. */
  function Spawn(s: seq<Cell>, pos: Cell): seq<Cell>
  {
    if pos in s then s else s + [pos]
  }

  /** Spawning adds exactly `pos`, keeps the keys distinct, and grows the
      list by one only for a new position. */
  lemma SpawnAddsOnce(s: seq<Cell>, pos: Cell)
    ensures pos in Spawn(s, pos) && forall c :: c in Spawn(s, pos) <==> c in s || c == pos
    ensures (forall i, j | 0 <= i < j < |s| :: s[i] != s[j]) ==> forall i, j | 0 <= i < j < |Spawn(s, pos)| :: Spawn(s, pos)[i] != Spawn(s, pos)[j]
    ensures |Spawn(s, pos)| == if pos in s then |s| else |s| + 1
  {
  }

  /** Spawning is idempotent per position. */
  lemma SpawnIdempotent(s: seq<Cell>, pos: Cell)
    ensures Spawn(Spawn(s, pos), pos) == Spawn(s, pos)
  {
  }

  /** Opening a cell and spawning its tile keeps keys and floor in step. */
  lemma OpenKeepsTiles(g: Grid, w: int, h: int, s: seq<Cell>, x: int, y: int)
    requires Shaped(g, w, h) && TilesMatch(g, w, h, s) && InBounds(x, y, w, h)
    ensures TilesMatch(Set(g, w, h, x, y, 1), w, h, Spawn(s, (x, y)))
    ensures g[x][y] == 0 ==> (x, y) !in s
  {
    var g', r := Set(g, w, h, x, y, 1), Spawn(s, (x, y));
    SpawnAddsOnce(s, (x, y));
    forall i | 0 <= i < |r| ensures InBounds(r[i].0, r[i].1, w, h) && g'[r[i].0][r[i].1] == 1 {
      if i < |s| {
        assert r[i] == s[i];
      }
    }
    if g[x][y] == 0 {
      forall i | 0 <= i < |s| ensures s[i] != (x, y) {
      }
    }
  }

  /** Swapping positions i and j. */
  function Swap(s: seq<Cell>, i: int, j: int): (r: seq<Cell>)
    requires 0 <= i < |s| && 0 <= j < |s|
    ensures |r| == |s| && multiset(r) == multiset(s)
  {
    s[i := s[j]][j := s[i]]
  }

  /** Fisher–Yates with the swap targets js: step i exchanges positions i
      and js[i]. */
  function Shuffled(s: seq<Cell>, js: seq<int>): (r: seq<Cell>)
    requires |js| <= |s| && forall i | 0 <= i < |js| :: i <= js[i] < |s|
    ensures |r| == |s|
  {
    if js == [] then s else Swap(Shuffled(s, js[..|js| - 1]), |js| - 1, js[|js| - 1])
  }

  lemma ShuffledSnoc(s: seq<Cell>, js: seq<int>, j: int)
    requires |js| < |s| && |js| <= j < |s| && forall i | 0 <= i < |js| :: i <= js[i] < |s|
    ensures Shuffled(s, js + [j]) == Swap(Shuffled(s, js), |js|, j)
  {
    assert (js + [j])[..|js|] == js;
  }

  /** The first i swap positions that a Fisher–Yates pass over n elements
      takes from the draws at p, p + 1, …: position k swaps with
      `Random.Range(k, n)`. */
  function SwapDraws(draws: nat -> int, p: nat, n: nat, i: nat): (js: seq<int>)
    requires i <= n
    ensures |js| == i && forall k | 0 <= k < i :: k <= js[k] < n
  {
    if i == 0 then [] else SwapDraws(draws, p, n, i - 1) + [RangeOf(i - 1, n, draws(p + i - 1))]
  }

  /** One more swap position, from the draw at q = p + i. */
  lemma SwapDrawsSnoc(draws: nat -> int, p: nat, n: nat, i: nat, q: nat)
    requires i < n && q == p + i
    ensures SwapDraws(draws, p, n, i + 1) == SwapDraws(draws, p, n, i) + [RangeOf(i, n, draws(q))]
  {
  }

  /** Swap position k of a pass comes from the draw at p + k. */
  lemma {:induction false} SwapDrawsAt(draws: nat -> int, p: nat, n: nat, i: nat, k: nat)
    requires k < i <= n
    ensures SwapDraws(draws, p, n, i)[k] == RangeOf(k, n, draws(p + k))
  {
    if k < i - 1 {
      SwapDrawsAt(draws, p, n, i - 1, k);
    }
  }

  /** A shuffle is a permutation of its input. */
  lemma {:induction false} ShuffledIsPermutation(s: seq<Cell>, js: seq<int>)
    requires |js| <= |s| && forall i | 0 <= i < |js| :: i <= js[i] < |s|
    ensures multiset(Shuffled(s, js)) == multiset(s)
  {
    if js != [] {
      ShuffledIsPermutation(s, js[..|js| - 1]);
    }
  }

  /** `Mathf.Clamp` on integers. */
  function Clamp(v: int, lo: int, hi: int): (r: int)
    ensures lo <= hi ==> lo <= r <= hi
    ensures lo <= v <= hi ==> r == v
    ensures v < lo ==> r == lo
    ensures lo <= hi < v ==> r == hi
  {
    if v < lo then lo else if v > hi then hi else v
  }

  /** C#'s `/` by 2, which rounds toward zero. */
  function Half(v: int): (r: int)
    ensures v >= 0 ==> 0 <= r && r + r <= v < r + r + 2
    ensures v < 0 ==> r <= 0 && v <= r + r && r + r < v + 2
  {
    if v >= 0 then v / 2 else -((-v) / 2)
  }

  /** A stamped room: `GenerateRooms` fills its cells. */
  datatype Rect = Rect(x: int, y: int, w: int, h: int)
  {
    predicate Contains(px: int, py: int)
    {
      x <= px < x + w && y <= py < y + h
    }
  }

  ghost predicate InSomeRect(rects: seq<Rect>, x: int, y: int)
  {
    exists i | 0 <= i < |rects| :: rects[i].Contains(x, y)
  }

  /** Every cell of r is strictly inside the border ring. */
  predicate RectInside(r: Rect, w: int, h: int)
  {
    r.w <= 0 || r.h <= 0 || (1 <= r.x && r.x + r.w <= w - 1 && 1 <= r.y && r.y + r.h <= h - 1)
  }

  lemma InSomeRectSnoc(rects: seq<Rect>, r: Rect, x: int, y: int)
    ensures InSomeRect(rects + [r], x, y) <==> InSomeRect(rects, x, y) || r.Contains(x, y)
  {
    var s := rects + [r];
    if InSomeRect(rects, x, y) {
      var k :| 0 <= k < |rects| && rects[k].Contains(x, y);
      assert s[k] == rects[k];
    }
    if r.Contains(x, y) {
      assert s[|rects|] == r;
    }
  }

  /** g with the rooms stamped in order. */
  function StampAll(g: Grid, w: int, h: int, rects: seq<Rect>): (s: Grid)
    requires Shaped(g, w, h)
    ensures Shaped(s, w, h)
  {
    if rects == [] then g else FillRect(StampAll(g, w, h, rects[..|rects| - 1]), w, h, rects[|rects| - 1].x, rects[|rects| - 1].y, rects[|rects| - 1].w, rects[|rects| - 1].h)
  }

  lemma StampAllSnoc(g: Grid, w: int, h: int, rects: seq<Rect>, r: Rect)
    requires Shaped(g, w, h)
    ensures StampAll(g, w, h, rects + [r]) == FillRect(StampAll(g, w, h, rects), w, h, r.x, r.y, r.w, r.h)
  {
    assert (rects + [r])[..|rects|] == rects;
  }

  /** After stamping, a cell is floor exactly when some room covers it;
      every other cell keeps its value. */
  lemma {:induction false} StampAllCells(g: Grid, w: int, h: int, rects: seq<Rect>, x: int, y: int)
    requires Shaped(g, w, h) && InBounds(x, y, w, h)
    ensures StampAll(g, w, h, rects)[x][y] == if InSomeRect(rects, x, y) then 1 else g[x][y]
    decreases |rects|
  {
    if rects != [] {
      var init := rects[..|rects| - 1];
      StampAllCells(g, w, h, init, x, y);
      InSomeRectSnoc(init, rects[|rects| - 1], x, y);
      assert init + [rects[|rects| - 1]] == rects;
    }
  }

  /** The room one attempt plans from the three draws at p. */
  function PlanAt(tiles: seq<Cell>, draws: nat -> int, p: nat, minSize: int, maxSize: int, w: int, h: int): Rect
    requires |tiles| > 0 && minSize <= maxSize
  {
    PlanRoom(tiles, draws(p), draws(p + 1), draws(p + 2), minSize, maxSize, w, h)
  }

  /** The first n rooms planned from the draws after p0, three per room. */
  function Plans(tiles: seq<Cell>, draws: nat -> int, p0: nat, n: nat, minSize: int, maxSize: int, w: int, h: int): (rs: seq<Rect>)
    requires |tiles| > 0 && minSize <= maxSize
    ensures |rs| == n
  {
    if n == 0 then [] else Plans(tiles, draws, p0, n - 1, minSize, maxSize, w, h) + [PlanAt(tiles, draws, p0 + 3 * (n - 1), minSize, maxSize, w, h)]
  }

  lemma PlansSnoc(tiles: seq<Cell>, draws: nat -> int, p0: nat, n: nat, p: nat, minSize: int, maxSize: int, w: int, h: int)
    requires |tiles| > 0 && minSize <= maxSize && p == p0 + 3 * n
    ensures Plans(tiles, draws, p0, n + 1, minSize, maxSize, w, h)
            == Plans(tiles, draws, p0, n, minSize, maxSize, w, h) + [PlanAt(tiles, draws, p, minSize, maxSize, w, h)]
  {
  }

  /** Room k of the plan comes from draws p0 + 3k, p0 + 3k + 1 and
      p0 + 3k + 2. */
  lemma {:induction false} PlansAt(tiles: seq<Cell>, draws: nat -> int, p0: nat, n: nat, minSize: int, maxSize: int, w: int, h: int, k: int)
    requires |tiles| > 0 && minSize <= maxSize && 0 <= k < n
    ensures Plans(tiles, draws, p0, n, minSize, maxSize, w, h)[k]
            == PlanRoom(tiles, draws(p0 + 3 * k), draws(p0 + 3 * k + 1), draws(p0 + 3 * k + 2), minSize, maxSize, w, h)
  {
    if k < n - 1 {
      PlansAt(tiles, draws, p0, n - 1, minSize, maxSize, w, h, k);
    }
  }

  /** When the largest room fits, every planned room lies inside the
      border ring. */
  lemma PlansInside(tiles: seq<Cell>, draws: nat -> int, p0: nat, n: nat, minSize: int, maxSize: int, w: int, h: int, k: int)
    requires |tiles| > 0 && minSize <= maxSize && maxSize <= w - 2 && maxSize <= h - 2 && 0 <= k < n
    ensures RectInside(Plans(tiles, draws, p0, n, minSize, maxSize, w, h)[k], w, h)
  {
    PlansAt(tiles, draws, p0, n, minSize, maxSize, w, h, k);
    PlanRoomFits(tiles, draws(p0 + 3 * k), draws(p0 + 3 * k + 1), draws(p0 + 3 * k + 2), minSize, maxSize, w, h);
  }

  /** Opening (1, 1) in an all-wall grid gives the one-cell maze, with the
      start as its only tile. */
  lemma StartMaze(g: Grid, w: int, h: int)
    requires Shaped(g, w, h) && w >= 2 && h >= 2
    requires forall x, y | InBounds(x, y, w, h) :: g[x][y] == 0
    ensures MazeShape(Set(g, w, h, Start.0, Start.1, 1), w, h, {Start}, map[], map[Start := 0])
    ensures TilesMatch(Set(g, w, h, Start.0, Start.1, 1), w, h, [Start])
  {
    var g' := Set(g, w, h, Start.0, Start.1, 1);
    forall x, y | InBounds(x, y, w, h)
      ensures g'[x][y] == 1 <==> Carved({Start}, map[], x, y)
    {
      if (x, y) != Start {
        assert g'[x][y] == g[x][y] == 0;
      }
    }
    assert Binary(g, w, h);
    SetKeepsBinary(g, w, h, Start.0, Start.1, 1);
  }

  /** A finished maze whose visited cells are all closed covers every odd
      interior cell. */
  lemma MazeCovers(g: Grid, w: int, h: int, visited: set<Cell>, parent: map<Cell, Cell>, rank: map<Cell, nat>)
    requires Shaped(g, w, h) && MazeShape(g, w, h, visited, parent, rank)
    requires forall c | c in visited :: Closed(g, w, h, c)
    ensures forall x, y | IsInside((x, y), w, h) && Odd(x) && Odd(y) :: (x, y) in visited
  {
    forall a, b | InBounds(a, b, w, h) && Odd(a) && Odd(b) && g[a][b] == 1
      ensures (a, b) in visited
    {
      assert Carved(visited, parent, a, b);
    }
    forall x, y | IsInside((x, y), w, h) && Odd(x) && Odd(y)
      ensures (x, y) in visited
    {
      ClosedMazeCoversLattice(g, w, h, visited, x, y);
    }
  }

  /** The finished dungeon: the maze with the rooms stamped over it. A cell
      is floor exactly when it is carved or in a room, and the border ring,
      untouched by the carver and outside every room, stays wall. */
  lemma DungeonCells(gE: Grid, gS: Grid, gM: Grid, gR: Grid, w: int, h: int, visited: set<Cell>, parent: map<Cell, Cell>,
                     rects: seq<Rect>)
    requires Shaped(gE, w, h) && Shaped(gS, w, h) && Shaped(gM, w, h) && w >= 2 && h >= 2
    requires forall x, y | InBounds(x, y, w, h) :: gE[x][y] == 0
    requires gS == Set(gE, w, h, Start.0, Start.1, 1)
    requires BorderKept(gS, gM, w, h) && FloorIsCarved(gM, w, h, visited, parent)
    requires gR == StampAll(gM, w, h, rects)
    requires forall k | 0 <= k < |rects| :: RectInside(rects[k], w, h)
    ensures Shaped(gR, w, h)
    ensures forall x, y | InBounds(x, y, w, h) :: gR[x][y] == 1 <==> Carved(visited, parent, x, y) || InSomeRect(rects, x, y)
    ensures w >= 3 && h >= 3 ==> BorderWall(gR, w, h)
  {
    forall x, y | InBounds(x, y, w, h)
      ensures gR[x][y] == 1 <==> Carved(visited, parent, x, y) || InSomeRect(rects, x, y)
    {
      StampAllCells(gM, w, h, rects, x, y);
    }
    if w >= 3 && h >= 3 {
      forall x, y | InBounds(x, y, w, h) && OnBorder(x, y, w, h)
        ensures gR[x][y] == 0
      {
        StampAllCells(gM, w, h, rects, x, y);
        assert (x, y) != Start;
        forall k | 0 <= k < |rects|
          ensures !rects[k].Contains(x, y)
        {
          assert RectInside(rects[k], w, h);
        }
      }
    }
  }

  /** The centre tile one attempt of `GenerateRooms` picks from its first
      draw. */
  function PlanCentre(tiles: seq<Cell>, d0: int): (c: Cell)
    requires |tiles| > 0
    ensures c in tiles
  {
    tiles[RangeOf(0, |tiles|, d0)]
  }

  /** The room one attempt of `GenerateRooms` stamps, from its three draws:
      a spawned tile as centre, then width and height, the corner clamped so
      that the room stays off the border. */
  function PlanRoom(tiles: seq<Cell>, d0: int, d1: int, d2: int, minSize: int, maxSize: int, w: int, h: int): Rect
    requires |tiles| > 0 && minSize <= maxSize + 1
  {
    var c := PlanCentre(tiles, d0);
    var rw := RangeOf(minSize, maxSize + 1, d1);
    var rh := RangeOf(minSize, maxSize + 1, d2);
    Rect(Clamp(c.0 - Half(rw), 1, w - rw - 1), Clamp(c.1 - Half(rh), 1, h - rh - 1), rw, rh)
  }

  /** A planned room has a width and height drawn from
      [minSize, maxSize] and stays strictly inside the map. */
  lemma PlanRoomFits(tiles: seq<Cell>, d0: int, d1: int, d2: int, minSize: int, maxSize: int, w: int, h: int)
    requires |tiles| > 0 && minSize <= maxSize && maxSize <= w - 2 && maxSize <= h - 2
    ensures var r := PlanRoom(tiles, d0, d1, d2, minSize, maxSize, w, h);
            RectInside(r, w, h) && minSize <= r.w <= maxSize && minSize <= r.h <= maxSize
  {
  }

  /** A planned room contains its centre tile whenever that tile is inside
      the map and the room is not empty: every room touches floor that was
      already there. */
  lemma PlanRoomCoversCentre(tiles: seq<Cell>, d0: int, d1: int, d2: int, minSize: int, maxSize: int, w: int, h: int)
    requires |tiles| > 0 && 1 <= minSize <= maxSize && maxSize <= w - 2 && maxSize <= h - 2
    requires IsInside(PlanCentre(tiles, d0), w, h)
    ensures var c := PlanCentre(tiles, d0);
            PlanRoom(tiles, d0, d1, d2, minSize, maxSize, w, h).Contains(c.0, c.1)
  {
    var c := PlanCentre(tiles, d0);
    var rw := RangeOf(minSize, maxSize + 1, d1);
    var rh := RangeOf(minSize, maxSize + 1, d2);
    ClampCovers(c.0, rw, w);
    ClampCovers(c.1, rh, h);
  }

  /** Clamping the corner of a span of length n that starts n/2 before v
      keeps v in the span, when v is inside and the span fits. */
  lemma ClampCovers(v: int, n: int, size: int)
    requires 1 <= v <= size - 2 && 1 <= n <= size - 2
    ensures var x := Clamp(v - Half(n), 1, size - n - 1); x <= v < x + n
  {
    var half := Half(n);
    assert 0 <= half && half + half <= n;
  }

  /** Opening two wall cells strictly inside the map only opens, and keeps
      the border. */
  lemma OpenTwoCells(g: Grid, w: int, h: int, a: Cell, b: Cell)
    requires Shaped(g, w, h) && IsInside(a, w, h) && IsInside(b, w, h)
    requires g[a.0][a.1] == 0 && g[b.0][b.1] == 0
    ensures var g' := Set(Set(g, w, h, a.0, a.1, 1), w, h, b.0, b.1, 1);
            OnlyOpens(g, g', w, h) && BorderKept(g, g', w, h)
  {
  }

  lemma OnlyOpensTrans(g0: Grid, g1: Grid, g2: Grid, w: int, h: int)
    requires Shaped(g0, w, h) && Shaped(g1, w, h) && Shaped(g2, w, h)
    requires OnlyOpens(g0, g1, w, h) && OnlyOpens(g1, g2, w, h)
    ensures OnlyOpens(g0, g2, w, h)
  {
  }

  lemma BorderKeptTrans(g0: Grid, g1: Grid, g2: Grid, w: int, h: int)
    requires Shaped(g0, w, h) && Shaped(g1, w, h) && Shaped(g2, w, h)
    requires BorderKept(g0, g1, w, h) && BorderKept(g1, g2, w, h)
    ensures BorderKept(g0, g2, w, h)
  {
  }

  /** Opening cells keeps closed cells closed. */
  lemma OpensKeepClosed(g1: Grid, g2: Grid, w: int, h: int, cells: set<Cell>)
    requires Shaped(g1, w, h) && Shaped(g2, w, h) && OnlyOpens(g1, g2, w, h)
    requires forall c | c in cells :: Closed(g1, w, h, c)
    ensures forall c | c in cells :: Closed(g2, w, h, c)
  {
  }

  /** Opening cells keeps the first k neighbours tried open; with the k-th
      now open too, the first k + 1 are. */
  lemma OpensKeepOpen(g1: Grid, g2: Grid, w: int, h: int, c: Cell, dirs: seq<Cell>, k: int)
    requires Shaped(g1, w, h) && Shaped(g2, w, h) && OnlyOpens(g1, g2, w, h) && 0 <= k < |dirs|
    requires forall i | 0 <= i < k :: OpenIfInside(g1, w, h, Ahead(c, dirs[i], 2))
    requires OpenIfInside(g2, w, h, Ahead(c, dirs[k], 2))
    ensures forall i | 0 <= i < k + 1 :: OpenIfInside(g2, w, h, Ahead(c, dirs[i], 2))
  {
  }

  /** The loop of `DepthFirstCarve` after k directions: the grid only
      opened since g0, the cells visited since v0 are closed, and the first
      k neighbours of `current` tried are open. */
  ghost predicate CarveLoop(g0: Grid, g: Grid, w: int, h: int, v0: set<Cell>, v: set<Cell>, current: Cell,
                            order: seq<Cell>, k: int)
  {
    && Shaped(g0, w, h) && Shaped(g, w, h) && 0 <= k <= |order|
    && OnlyOpens(g0, g, w, h) && BorderKept(g0, g, w, h)
    && (forall c | c in v - v0 :: Closed(g, w, h, c))
    && (forall i | 0 <= i < k :: OpenIfInside(g, w, h, Ahead(current, order[i], 2)))
  }

  lemma CarveLoopStep(g0: Grid, g: Grid, g': Grid, w: int, h: int, v0: set<Cell>, v: set<Cell>, v': set<Cell>,
                      current: Cell, order: seq<Cell>, k: int)
    requires CarveLoop(g0, g, w, h, v0, v, current, order, k) && k < |order| && Shaped(g', w, h)
    requires OnlyOpens(g, g', w, h) && BorderKept(g, g', w, h) && v <= v'
    requires forall c | c in v' - v :: Closed(g', w, h, c)
    requires OpenIfInside(g', w, h, Ahead(current, order[k], 2))
    ensures CarveLoop(g0, g', w, h, v0, v', current, order, k + 1)
  {
    OnlyOpensTrans(g0, g, g', w, h);
    BorderKeptTrans(g0, g, g', w, h);
    OpensKeepClosed(g, g', w, h, v - v0);
    OpensKeepOpen(g, g', w, h, current, order, k);
  }

  /** After all four directions: the grid only opened, and every cell
      visited since v0, and `current`, is closed. */
  lemma CarveLoopDone(g0: Grid, g: Grid, w: int, h: int, v0: set<Cell>, v: set<Cell>, current: Cell, order: seq<Cell>)
    requires CarveLoop(g0, g, w, h, v0, v, current, order, |order|)
    requires multiset(order) == multiset(Directions)
    ensures OnlyOpens(g0, g, w, h) && BorderKept(g0, g, w, h)
    ensures forall c | c in v - v0 + {current} :: Closed(g, w, h, c)
  {
    TriedAllIsClosed(g, w, h, current, order);
  }

  /** A cell whose four neighbours, tried in any order, are all open is
      closed. */
  lemma TriedAllIsClosed(g: Grid, w: int, h: int, c: Cell, order: seq<Cell>)
    requires Shaped(g, w, h) && multiset(order) == multiset(Directions)
    requires forall i | 0 <= i < |order| :: OpenIfInside(g, w, h, Ahead(c, order[i], 2))
    ensures Closed(g, w, h, c)
  {
    forall t | 0 <= t < 4
      ensures OpenIfInside(g, w, h, Ahead(c, Directions[t], 2))
    {
      assert Directions[t] in multiset(order);
      var i :| 0 <= i < |order| && order[i] == Directions[t];
    }
    assert Ahead(c, Directions[0], 2) == (c.0, c.1 + 2);
    assert Ahead(c, Directions[1], 2) == (c.0 + 2, c.1);
    assert Ahead(c, Directions[2], 2) == (c.0, c.1 - 2);
    assert Ahead(c, Directions[3], 2) == (c.0 - 2, c.1);
  }

  /** Reaching a new lattice cell shrinks the set of unreached ones. */
  lemma LatticeShrinks(lattice: set<Cell>, v0: set<Cell>, v1: set<Cell>, c: Cell)
    requires v0 <= v1 && c in v1 && c !in v0 && c in lattice
    ensures |lattice - v1| < |lattice - v0|
  {
    SubsetCard(lattice - v1, (lattice - v0) - {c});
  }

  lemma {:induction false} SubsetCard(a: set<Cell>, b: set<Cell>)
    requires a <= b
    ensures |a| <= |b|
  {
    if a != {} {
      var x :| x in a;
      SubsetCard(a - {x}, b - {x});
    }
  }

  /** One carve step keeps the whole generator state consistent: the maze,
      the spawned tiles, their count, and what may change. */
  lemma CarveKeepsAll(g: Grid, w: int, h: int, visited: set<Cell>, parent: map<Cell, Cell>, rank: map<Cell, nat>,
                      s: seq<Cell>, current: Cell, d: Cell, g': Grid, s': seq<Cell>)
    requires Shaped(g, w, h) && MazeShape(g, w, h, visited, parent, rank)
    requires TilesMatch(g, w, h, s) && |s| == 2 * |visited| - 1
    requires current in visited && d in Directions
    requires IsInside(Ahead(current, d, 2), w, h) && g[Ahead(current, d, 2).0][Ahead(current, d, 2).1] == 0
    requires IsInside(Ahead(current, d, 1), w, h)
    requires g' == Set(Set(g, w, h, Ahead(current, d, 1).0, Ahead(current, d, 1).1, 1), w, h, Ahead(current, d, 2).0, Ahead(current, d, 2).1, 1)
    requires s' == Spawn(Spawn(s, Ahead(current, d, 1)), Ahead(current, d, 2))
    ensures Shaped(g', w, h)
    ensures Ahead(current, d, 2) !in visited
    ensures InBounds(Ahead(current, d, 2).0, Ahead(current, d, 2).1, w, h) && Odd(Ahead(current, d, 2).0) && Odd(Ahead(current, d, 2).1)
    ensures MazeShape(g', w, h, visited + {Ahead(current, d, 2)}, parent[Ahead(current, d, 2) := current], rank[Ahead(current, d, 2) := |visited|])
    ensures TilesMatch(g', w, h, s') && |s'| == 2 * |visited + {Ahead(current, d, 2)}| - 1
    ensures OnlyOpens(g, g', w, h) && BorderKept(g, g', w, h)
  {
    var between, next := Ahead(current, d, 1), Ahead(current, d, 2);
    CarveKeepsMaze(g, w, h, visited, parent, rank, current, d);
    OpenKeepsTiles(g, w, h, s, between.0, between.1);
    var g1 := Set(g, w, h, between.0, between.1, 1);
    assert g1[next.0][next.1] == 0;
    OpenKeepsTiles(g1, w, h, Spawn(s, between), next.0, next.1);
    SpawnAddsOnce(s, between);
    SpawnAddsOnce(Spawn(s, between), next);
    OpenTwoCells(g, w, h, between, next);
    OddStep(current.0);
    OddStep(current.1);
  }

  /** Cells only ever change from wall to floor. */
  ghost predicate OnlyOpens(g0: Grid, g1: Grid, w: int, h: int)
    requires Shaped(g0, w, h) && Shaped(g1, w, h)
  {
    forall x, y | InBounds(x, y, w, h) :: g1[x][y] == g0[x][y] || (g0[x][y] == 0 && g1[x][y] == 1)
  }

  ghost predicate BorderKept(g0: Grid, g1: Grid, w: int, h: int)
    requires Shaped(g0, w, h) && Shaped(g1, w, h)
  {
    forall x, y | InBounds(x, y, w, h) && OnBorder(x, y, w, h) :: g1[x][y] == g0[x][y]
  }

  // ---------------------------------------------------------------------
  // The generator
  // ---------------------------------------------------------------------

  class DfsGenerator {
    const mapWidth: int
    const mapHeight: int
    const generateRooms: bool
    const roomMinSize: int
    const roomMaxSize: int
    const rng: Random
    const mapGrid: array2<int>
    /** The keys of the source's `spawnedTiles` dictionary, in insertion order. */
    var spawnedTiles: seq<Cell>
    ghost var visited: set<Cell>
    ghost var parent: map<Cell, Cell>
    ghost var rank: map<Cell, nat>

    /** The grid is binary and the spawned tiles are its floor cells. */
    ghost predicate Valid()
      reads this, mapGrid
    {
      && mapGrid.Length0 == mapWidth && mapGrid.Length1 == mapHeight
      && Binary(View(mapGrid), mapWidth, mapHeight)
      && TilesMatch(View(mapGrid), mapWidth, mapHeight, spawnedTiles)
    }

    /** Valid, and the grid is the search tree: 2·|visited| − 1 floor cells. */
    ghost predicate MazeValid()
      reads this, mapGrid
    {
      && Valid()
      && MazeShape(View(mapGrid), mapWidth, mapHeight, visited, parent, rank)
      && |spawnedTiles| == 2 * |visited| - 1
    }

    /** The odd lattice cells of the map. */
    ghost function Lattice(): set<Cell>
    {
      set x, y | 0 <= x < mapWidth && 0 <= y < mapHeight && Odd(x) && Odd(y) :: (x, y)
    }

    /** `Start` up to the coroutine: the grid allocated all wall, nothing
        spawned. */
    constructor (mapWidth: nat, mapHeight: nat, generateRooms: bool, roomMinSize: int, roomMaxSize: int, rng: Random)
      ensures Valid() && fresh(mapGrid) && spawnedTiles == []
      ensures this.mapWidth == mapWidth && this.mapHeight == mapHeight && this.generateRooms == generateRooms
      ensures this.roomMinSize == roomMinSize && this.roomMaxSize == roomMaxSize && this.rng == rng
      ensures forall x, y | InBounds(x, y, mapWidth, mapHeight) :: mapGrid[x, y] == 0
    {
      this.mapWidth := mapWidth;
      this.mapHeight := mapHeight;
      this.generateRooms := generateRooms;
      this.roomMinSize := roomMinSize;
      this.roomMaxSize := roomMaxSize;
      this.rng := rng;
      mapGrid := new int[mapWidth, mapHeight]((x, y) => 0);
      spawnedTiles := [];
    }

    /** `SpawnTile`: records the tile for `pos` unless it already has one. */
    method SpawnTile(pos: Cell)
      modifies this
      ensures spawnedTiles == Spawn(old(spawnedTiles), pos)
      ensures visited == old(visited) && parent == old(parent) && rank == old(rank)
    {
      if pos in spawnedTiles {
        return;
      }
      spawnedTiles := spawnedTiles + [pos];
    }

    /** `Shuffle`: Fisher–Yates on `list`, one draw per position. */
    method Shuffle(list: array<Cell>) returns (ghost swaps: seq<int>)
      modifies list, rng
      ensures |swaps| == list.Length && forall i | 0 <= i < |swaps| :: i <= swaps[i] < list.Length
      ensures list[..] == Shuffled(old(list[..]), swaps)
      ensures multiset(list[..]) == multiset(old(list[..]))
      ensures rng.position == old(rng.position) + list.Length
      ensures swaps == SwapDraws(rng.draws, old(rng.position), list.Length, list.Length)
    {
      swaps := [];
      ghost var orig, p0 := list[..], rng.position;
      var i := 0;
      while i < list.Length
        invariant 0 <= i <= list.Length == |orig|
        invariant rng.position == p0 + i
        invariant swaps == SwapDraws(rng.draws, p0, list.Length, i)
        invariant list[..] == Shuffled(orig, swaps)
      {
        swaps := ShuffleStep(list, i, orig, p0, swaps);
        i := i + 1;
      }
      ShuffledIsPermutation(orig, swaps);
    }

    /** One step of `Shuffle`: swap index i with `Random.Range(i, list.Count)`. */
    method ShuffleStep(list: array<Cell>, i: nat, ghost orig: seq<Cell>, ghost p0: nat, ghost swaps: seq<int>) returns (ghost swaps': seq<int>)
      requires i < list.Length == |orig| && rng.position == p0 + i
      requires swaps == SwapDraws(rng.draws, p0, list.Length, i)
      requires list[..] == Shuffled(orig, swaps)
      modifies list, rng
      ensures rng.position == p0 + i + 1
      ensures swaps' == SwapDraws(rng.draws, p0, list.Length, i + 1)
      ensures list[..] == Shuffled(orig, swaps')
    {
      var j := DrawSwap(i, list.Length, p0);
      swaps' := swaps + [j];
      ShuffledSnoc(orig, swaps, j);
      ghost var before := list[..];
      list[i], list[j] := list[j], list[i];
      assert list[..] == Swap(before, i, j);
    }

    /** `Random.Range(i, list.Count)` in `Shuffle`: the swap position of
        index i, from the draw at p0 + i. */
    method DrawSwap(i: nat, n: nat, ghost p0: nat) returns (j: int)
      requires i < n && rng.position == p0 + i
      modifies rng
      ensures rng.position == old(rng.position) + 1 && i <= j < n
      ensures SwapDraws(rng.draws, p0, n, i + 1) == SwapDraws(rng.draws, p0, n, i) + [j]
    {
      ghost var q := rng.position;
      j := rng.Range(i, n);
      SwapDrawsSnoc(rng.draws, p0, n, i, q);
    }

    /** The carve inside `DepthFirstCarve`: opens the cell between and
        `next`, spawns both tiles, and records `next` as reached from
        `current`. */
    method CarveStep(current: Cell, dir: Cell) returns (next: Cell)
      requires mapGrid.Length0 == mapWidth && mapGrid.Length1 == mapHeight
      requires IsInside(Ahead(current, dir, 2), mapWidth, mapHeight) && IsInside(Ahead(current, dir, 1), mapWidth, mapHeight)
      modifies this, mapGrid
      ensures next == Ahead(current, dir, 2)
      ensures View(mapGrid) == Set(Set(old(View(mapGrid)), mapWidth, mapHeight, Ahead(current, dir, 1).0, Ahead(current, dir, 1).1, 1),
                                   mapWidth, mapHeight, next.0, next.1, 1)
      ensures spawnedTiles == Spawn(Spawn(old(spawnedTiles), Ahead(current, dir, 1)), next)
      ensures visited == old(visited) + {next} && parent == old(parent)[next := current]
      ensures rank == old(rank)[next := |old(visited)|]
    {
      next := Ahead(current, dir, 2);
      var between := Ahead(current, dir, 1);
      OpenPair(between, next);
      RecordStep(current, between, next);
    }

    /** The two `SpawnTile` calls of a carve, and the search edge it adds. */
    method RecordStep(current: Cell, between: Cell, next: Cell)
      modifies this
      ensures spawnedTiles == Spawn(Spawn(old(spawnedTiles), between), next)
      ensures visited == old(visited) + {next} && parent == old(parent)[next := current]
      ensures rank == old(rank)[next := |old(visited)|]
    {
      SpawnTile(between);
      SpawnTile(next);
      rank := rank[next := |visited|];
      parent := parent[next := current];
      visited := visited + {next};
    }

    /** `mapGrid[a.x, a.y] = 1; mapGrid[b.x, b.y] = 1;` */
    method OpenPair(a: Cell, b: Cell)
      requires mapGrid.Length0 == mapWidth && mapGrid.Length1 == mapHeight
      requires InBounds(a.0, a.1, mapWidth, mapHeight) && InBounds(b.0, b.1, mapWidth, mapHeight)
      modifies mapGrid
      ensures View(mapGrid) == Set(Set(old(View(mapGrid)), mapWidth, mapHeight, a.0, a.1, 1), mapWidth, mapHeight, b.0, b.1, 1)
    {
      Open(a);
      Open(b);
    }

    /** `mapGrid[p.x, p.y] = 1`. */
    method Open(p: Cell)
      requires mapGrid.Length0 == mapWidth && mapGrid.Length1 == mapHeight && InBounds(p.0, p.1, mapWidth, mapHeight)
      modifies mapGrid
      ensures View(mapGrid) == Set(old(View(mapGrid)), mapWidth, mapHeight, p.0, p.1, 1)
    {
      ghost var g := View(mapGrid);
      mapGrid[p.0, p.1] := 1;
      ghost var g' := Set(g, mapWidth, mapHeight, p.0, p.1, 1);
      forall x, y | InBounds(x, y, mapWidth, mapHeight)
        ensures mapGrid[x, y] == g'[x][y]
      {
        if (x, y) != p {
          assert mapGrid[x, y] == old(mapGrid[x, y]) == g[x][y];
        }
      }
      Ext(View(mapGrid), g', mapWidth, mapHeight);
    }

    /** `DepthFirstCarve(current)`. Cells only open; the border is never
        written; on return every cell visited during the call, and `current`
        itself, has all its inside lattice neighbours open. */
    method DepthFirstCarve(current: Cell)
      requires MazeValid() && current in visited
      modifies this, mapGrid, rng
      ensures MazeValid()
      ensures old(visited) <= visited
      ensures OnlyOpens(old(View(mapGrid)), View(mapGrid), mapWidth, mapHeight)
      ensures BorderKept(old(View(mapGrid)), View(mapGrid), mapWidth, mapHeight)
      ensures forall c | c in visited - old(visited) + {current} :: Closed(View(mapGrid), mapWidth, mapHeight, c)
      decreases |Lattice() - visited|, 1
    {
      ghost var g0, v0 := View(mapGrid), visited;
      var order := ShuffledDirections();
      Ext(g0, View(mapGrid), mapWidth, mapHeight);
      assert CarveLoop(g0, View(mapGrid), mapWidth, mapHeight, v0, visited, current, order, 0);
      var k := 0;
      while k < 4
        invariant 0 <= k <= 4
        invariant MazeValid() && current in visited && v0 <= visited
        invariant multiset(order) == multiset(Directions)
        invariant CarveLoop(g0, View(mapGrid), mapWidth, mapHeight, v0, visited, current, order, k)
      {
        assert order[k] in Directions by {
          assert order[k] in multiset(order);
        }
        SubsetCard(Lattice() - visited, Lattice() - v0);
        TryDirection(current, order, k, g0, v0);
        k := k + 1;
      }
      CarveLoopDone(g0, View(mapGrid), mapWidth, mapHeight, v0, visited, current, order);
    }

    /** A fresh copy of `directions`, shuffled. */
    method ShuffledDirections() returns (order: seq<Cell>)
      modifies rng
      ensures |order| == 4 && multiset(order) == multiset(Directions)
      ensures rng.position == old(rng.position) + 4
      ensures order == Shuffled(Directions, SwapDraws(rng.draws, old(rng.position), 4, 4))
    {
      var dirs := new Cell[4];
      dirs[0], dirs[1], dirs[2], dirs[3] := Directions[0], Directions[1], Directions[2], Directions[3];
      assert dirs[..] == Directions;
      ghost var swaps := Shuffle(dirs);
      order := dirs[..];
    }

    /** One pass of the loop in `DepthFirstCarve`, with dir = order[k]:
        when the cell two steps toward dir is inside and still wall, carve to
        it and carve on from there. Either way that cell is floor or outside
        afterwards, and the loop's bookkeeping advances to k + 1. */
    method TryDirection(current: Cell, order: seq<Cell>, k: int, ghost g0: Grid, ghost v0: set<Cell>)
      requires MazeValid() && current in visited && 0 <= k < |order| && order[k] in Directions
      requires CarveLoop(g0, View(mapGrid), mapWidth, mapHeight, v0, visited, current, order, k)
      modifies this, mapGrid, rng
      ensures MazeValid() && old(visited) <= visited
      ensures CarveLoop(g0, View(mapGrid), mapWidth, mapHeight, v0, visited, current, order, k + 1)
      decreases |Lattice() - visited|, 0
    {
      var dir := order[k];
      ghost var gA, vA, sA, pA, rA := View(mapGrid), visited, spawnedTiles, parent, rank;
      var next := Ahead(current, dir, 2);
      if IsInside(next, mapWidth, mapHeight) && mapGrid[next.0, next.1] == 0 {
        assert IsInside(Ahead(current, dir, 1), mapWidth, mapHeight);
        next := CarveStep(current, dir);
        ghost var gB := View(mapGrid);
        CarveKeepsAll(gA, mapWidth, mapHeight, vA, pA, rA, sA, current, dir, gB, spawnedTiles);
        assert next in Lattice();
        LatticeShrinks(Lattice(), vA, visited, next);
        DepthFirstCarve(next);
        OnlyOpensTrans(gA, gB, View(mapGrid), mapWidth, mapHeight);
        BorderKeptTrans(gA, gB, View(mapGrid), mapWidth, mapHeight);
      } else {
        Ext(gA, View(mapGrid), mapWidth, mapHeight);
      }
      CarveLoopStep(g0, gA, View(mapGrid), mapWidth, mapHeight, v0, vA, visited, current, order, k);
    }

    /** The inner loops of `GenerateRooms`: every wall cell of r becomes
        floor and gets its tile; cells already floor are left alone. */
    method StampRoom(r: Rect)
      requires Valid() && RectInside(r, mapWidth, mapHeight)
      modifies this, mapGrid
      ensures Valid() && old(spawnedTiles) <= spawnedTiles
      ensures visited == old(visited) && parent == old(parent) && rank == old(rank)
      ensures View(mapGrid) == FillRect(old(View(mapGrid)), mapWidth, mapHeight, r.x, r.y, r.w, r.h)
    {
      ghost var g0 := View(mapGrid);
      ghost var g := g0;
      var x := r.x;
      while x < r.x + r.w
        invariant x == r.x || r.x <= x <= r.x + r.w
        invariant g == View(mapGrid) && Valid() && old(spawnedTiles) <= spawnedTiles
        invariant visited == old(visited) && parent == old(parent) && rank == old(rank)
        invariant forall px, py | InBounds(px, py, mapWidth, mapHeight) ::
                    g[px][py] == if r.x <= px < x && r.y <= py < r.y + r.h then 1 else g0[px][py]
      {
        var y := r.y;
        while y < r.y + r.h
          invariant y == r.y || r.y <= y <= r.y + r.h
          invariant g == View(mapGrid) && Valid() && old(spawnedTiles) <= spawnedTiles
          invariant visited == old(visited) && parent == old(parent) && rank == old(rank)
          invariant forall px, py | InBounds(px, py, mapWidth, mapHeight) ::
                      g[px][py] == if (r.x <= px < x && r.y <= py < r.y + r.h) || (px == x && r.y <= py < y) then 1
                                   else g0[px][py]
        {
          FillCell(x, y);
          g := Set(g, mapWidth, mapHeight, x, y, 1);
          y := y + 1;
        }
        x := x + 1;
      }
      Ext(g, FillRect(g0, mapWidth, mapHeight, r.x, r.y, r.w, r.h), mapWidth, mapHeight);
    }

    /** One cell of a room: `if (mapGrid[x, y] == 0) { mapGrid[x, y] = 1;
        SpawnTile((x, y)); }`. */
    method FillCell(x: int, y: int)
      requires Valid() && InBounds(x, y, mapWidth, mapHeight)
      modifies this, mapGrid
      ensures Valid() && old(spawnedTiles) <= spawnedTiles
      ensures visited == old(visited) && parent == old(parent) && rank == old(rank)
      ensures View(mapGrid) == Set(old(View(mapGrid)), mapWidth, mapHeight, x, y, 1)
    {
      ghost var g := View(mapGrid);
      if mapGrid[x, y] == 0 {
        Open((x, y));
        SpawnTile((x, y));
        OpenKeepsTiles(g, mapWidth, mapHeight, old(spawnedTiles), x, y);
        SetKeepsBinary(g, mapWidth, mapHeight, x, y, 1);
      } else {
        Ext(g, Set(g, mapWidth, mapHeight, x, y, 1), mapWidth, mapHeight);
      }
    }

    /** `GenerateRooms`: Max(1, n / 20) attempts over the n spawned tiles;
        each stamps the room that `PlanRoom` makes of its three draws. */
    method GenerateRooms() returns (ghost rects: seq<Rect>)
      requires Valid() && |spawnedTiles| > 0
      requires roomMinSize <= roomMaxSize && roomMaxSize <= mapWidth - 2 && roomMaxSize <= mapHeight - 2
      modifies this, mapGrid, rng
      ensures Valid() && old(spawnedTiles) <= spawnedTiles
      ensures visited == old(visited) && parent == old(parent) && rank == old(rank)
      ensures |rects| == if |old(spawnedTiles)| / 20 > 1 then |old(spawnedTiles)| / 20 else 1
      ensures rng.position == old(rng.position) + 3 * |rects|
      ensures rects == Plans(old(spawnedTiles), rng.draws, old(rng.position), |rects|, roomMinSize, roomMaxSize, mapWidth, mapHeight)
      ensures View(mapGrid) == StampAll(old(View(mapGrid)), mapWidth, mapHeight, rects)
    {
      var floorTiles := spawnedTiles;
      var roomAttempts := if |floorTiles| / 20 > 1 then |floorTiles| / 20 else 1;
      ghost var g0 := View(mapGrid);
      rects := [];
      var i := 0;
      while i < roomAttempts
        invariant 0 <= i <= roomAttempts && |rects| == i
        invariant Valid() && floorTiles <= spawnedTiles
        invariant visited == old(visited) && parent == old(parent) && rank == old(rank)
        invariant rng.position == old(rng.position) + 3 * i
        invariant rects == Plans(floorTiles, rng.draws, old(rng.position), i, roomMinSize, roomMaxSize, mapWidth, mapHeight)
        invariant View(mapGrid) == StampAll(g0, mapWidth, mapHeight, rects)
      {
        rects := RoomAttempt(floorTiles, old(rng.position), i, rects, g0);
        i := i + 1;
      }
    }

    /** One iteration of the room loop: plan a room from the next three
        draws and stamp it. The rooms so far are those planned from the
        draws after p0, stamped over g0; the result adds the new one. */
    method RoomAttempt(floorTiles: seq<Cell>, ghost p0: nat, ghost i: nat, ghost rects: seq<Rect>, ghost g0: Grid) returns (ghost rects': seq<Rect>)
      requires Valid() && |floorTiles| > 0 && floorTiles <= spawnedTiles && Shaped(g0, mapWidth, mapHeight)
      requires roomMinSize <= roomMaxSize && roomMaxSize <= mapWidth - 2 && roomMaxSize <= mapHeight - 2
      requires rng.position == p0 + 3 * i
      requires rects == Plans(floorTiles, rng.draws, p0, i, roomMinSize, roomMaxSize, mapWidth, mapHeight)
      requires View(mapGrid) == StampAll(g0, mapWidth, mapHeight, rects)
      modifies this, mapGrid, rng
      ensures Valid() && floorTiles <= spawnedTiles
      ensures visited == old(visited) && parent == old(parent) && rank == old(rank)
      ensures rng.position == p0 + 3 * (i + 1)
      ensures rects' == Plans(floorTiles, rng.draws, p0, i + 1, roomMinSize, roomMaxSize, mapWidth, mapHeight)
      ensures View(mapGrid) == StampAll(g0, mapWidth, mapHeight, rects')
    {
      ghost var p := rng.position;
      var r := PlanAttempt(floorTiles);
      StampRoom(r);
      PlansSnoc(floorTiles, rng.draws, p0, i, p, roomMinSize, roomMaxSize, mapWidth, mapHeight);
      StampAllSnoc(g0, mapWidth, mapHeight, rects, r);
      rects' := rects + [r];
    }

    /** One attempt's draws: the centre tile, the width, the height; the
        start corner is clamped so the room stays inside the border. */
    method PlanAttempt(floorTiles: seq<Cell>) returns (r: Rect)
      requires |floorTiles| > 0 && roomMinSize <= roomMaxSize && roomMaxSize <= mapWidth - 2 && roomMaxSize <= mapHeight - 2
      modifies rng
      ensures rng.position == old(rng.position) + 3
      ensures r == PlanRoom(floorTiles, rng.draws(old(rng.position)), rng.draws(old(rng.position) + 1), rng.draws(old(rng.position) + 2),
                            roomMinSize, roomMaxSize, mapWidth, mapHeight)
      ensures RectInside(r, mapWidth, mapHeight)
    {
      var pick := rng.Range(0, |floorTiles|);
      var center := floorTiles[pick];
      var roomW := rng.Range(roomMinSize, roomMaxSize + 1);
      var roomH := rng.Range(roomMinSize, roomMaxSize + 1);
      var startX := Clamp(center.0 - Half(roomW), 1, mapWidth - roomW - 1);
      var startY := Clamp(center.1 - Half(roomH), 1, mapHeight - roomH - 1);
      r := Rect(startX, startY, roomW, roomH);
      PlanRoomFits(floorTiles, rng.draws(old(rng.position)), rng.draws(old(rng.position) + 1), rng.draws(old(rng.position) + 2),
                   roomMinSize, roomMaxSize, mapWidth, mapHeight);
    }

    /** `GenerateDungeon`: open (1, 1), carve the maze from it, then stamp
        the rooms when they are switched on. The result is a spanning tree
        of the odd lattice (every odd interior cell is reached, every carved
        cell leads back to (1, 1) along `PathToStart`) with the rooms laid
        over it, and the border ring stays wall. */
    method GenerateDungeon() returns (ghost rects: seq<Rect>)
      requires Valid() && spawnedTiles == [] && mapWidth >= 2 && mapHeight >= 2
      requires forall x, y | InBounds(x, y, mapWidth, mapHeight) :: mapGrid[x, y] == 0
      requires generateRooms ==> roomMinSize <= roomMaxSize && roomMaxSize <= mapWidth - 2 && roomMaxSize <= mapHeight - 2
      modifies this, mapGrid, rng
      ensures Valid() && SearchTree(mapWidth, mapHeight, visited, parent, rank)
      ensures forall x, y | IsInside((x, y), mapWidth, mapHeight) && Odd(x) && Odd(y) :: (x, y) in visited
      ensures !generateRooms ==> rects == []
      ensures forall k | 0 <= k < |rects| :: RectInside(rects[k], mapWidth, mapHeight)
      ensures forall x, y | InBounds(x, y, mapWidth, mapHeight) ::
                View(mapGrid)[x][y] == 1 <==> Carved(visited, parent, x, y) || InSomeRect(rects, x, y)
      ensures mapWidth >= 3 && mapHeight >= 3 ==> BorderWall(View(mapGrid), mapWidth, mapHeight)
    {
      ghost var gE := View(mapGrid);
      OpenStart();
      ghost var gS := View(mapGrid);
      DepthFirstCarve(Start);
      ghost var gM := View(mapGrid);
      MazeCovers(gM, mapWidth, mapHeight, visited, parent, rank);
      assert SearchTree(mapWidth, mapHeight, visited, parent, rank);
      rects := OptionalRooms();
      ghost var gR := View(mapGrid);
      DungeonCells(gE, gS, gM, gR, mapWidth, mapHeight, visited, parent, rects);
    }

    /** `if (generateRooms) GenerateRooms();` */
    method OptionalRooms() returns (ghost rects: seq<Rect>)
      requires Valid() && |spawnedTiles| > 0
      requires generateRooms ==> roomMinSize <= roomMaxSize && roomMaxSize <= mapWidth - 2 && roomMaxSize <= mapHeight - 2
      modifies this, mapGrid, rng
      ensures Valid() && visited == old(visited) && parent == old(parent) && rank == old(rank)
      ensures !generateRooms ==> rects == []
      ensures forall k | 0 <= k < |rects| :: RectInside(rects[k], mapWidth, mapHeight)
      ensures View(mapGrid) == StampAll(old(View(mapGrid)), mapWidth, mapHeight, rects)
    {
      rects := [];
      if generateRooms {
        ghost var p0, ds, tiles := rng.position, rng.draws, spawnedTiles;
        rects := GenerateRooms();
        forall k | 0 <= k < |rects| ensures RectInside(rects[k], mapWidth, mapHeight) {
          PlansInside(tiles, ds, p0, |rects|, roomMinSize, roomMaxSize, mapWidth, mapHeight, k);
        }
      }
    }

    /** The first two statements of `GenerateDungeon`: (1, 1) becomes
        floor and gets its tile; the search starts there. */
    method OpenStart()
      requires Valid() && spawnedTiles == [] && mapWidth >= 2 && mapHeight >= 2
      requires forall x, y | InBounds(x, y, mapWidth, mapHeight) :: mapGrid[x, y] == 0
      modifies this, mapGrid
      ensures MazeValid() && visited == {Start} && spawnedTiles == [Start]
      ensures View(mapGrid) == Set(old(View(mapGrid)), mapWidth, mapHeight, Start.0, Start.1, 1)
    {
      ghost var gE := View(mapGrid);
      Open(Start);
      SpawnTile(Start);
      visited, parent, rank := {Start}, map[], map[Start := 0];
      StartMaze(gE, mapWidth, mapHeight);
    }

    /** `HasFloor`: false off the map, otherwise whether the cell is floor. */
    function HasFloor(p: Cell): (r: bool)
      reads this, mapGrid
      requires mapGrid.Length0 == mapWidth && mapGrid.Length1 == mapHeight
      ensures r ==> InBounds(p.0, p.1, mapWidth, mapHeight)
    {
      if p.0 < 0 || p.1 < 0 || p.0 >= mapWidth || p.1 >= mapHeight then false
      else mapGrid[p.0, p.1] == 1
    }

    /** A cell has floor exactly when it has a spawned tile. */
    lemma HasFloorIffSpawned(p: Cell)
      requires Valid()
      ensures HasFloor(p) <==> p in spawnedTiles
    {
      if p in spawnedTiles {
        var i :| 0 <= i < |spawnedTiles| && spawnedTiles[i] == p;
      }
    }
  }
}
