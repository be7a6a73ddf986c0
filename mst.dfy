/** The minimum-spanning-tree dungeon (MinimumSpanningTreeGenerator.cs).

    Random rectangles are stamped into an all-wall grid (0 = wall,
    1 = floor), Prim's algorithm joins their centres, and every chosen edge
    is carved as a horizontal run followed by a vertical run. Edge weights are
    compared as squared integer distances, which orders pairs of integer
    centres exactly as the Euclidean distance does. */
module MstDungeon {
  import opened Grids
  import opened Rand

  // ---------------------------------------------------------------------
  // Rooms and edges
  // ---------------------------------------------------------------------

  /** A placed rectangle; `index` is its position in the room list and makes
      two rooms distinct, as object identity does in the source. */
  datatype Room = Room(x: int, y: int, w: int, h: int, index: int)
  {
    predicate Contains(px: int, py: int)
    {
      x <= px < x + w && y <= py < y + h
    }

    /** `Center`: the cell halfway across, rounded down, which lies in the
        room whenever the room has a cell. */
    function Center(): (c: Cell)
      ensures w >= 1 && h >= 1 ==> Contains(c.0, c.1)
    {
      (x + w / 2, y + h / 2)
    }
  }

  /** Squared Euclidean distance. */
  function DistSq(p: Cell, q: Cell): (d: int)
    ensures d >= 0
    ensures d == 0 <==> p == q
  {
    var dx, dy := p.0 - q.0, p.1 - q.1;
    assert dx != 0 ==> dx * dx > 0;
    assert dy != 0 ==> dy * dy > 0;
    dx * dx + dy * dy
  }

  datatype Edge = Edge(a: Room, b: Room, weight: int)

  /** `new Edge(a, b)`. */
  function MakeEdge(a: Room, b: Room): Edge
  {
    Edge(a, b, DistSq(a.Center(), b.Center()))
  }

  /** A room of the configured size, possibly empty, whose cells stay off
      the border ring: column x + w is at most mapWidth - 2 unless the room
      is as wide as the interior, in which case `Random.Range(1, 1)` puts it
      at column 1. */
  ghost predicate Fits(r: Room, mapWidth: int, mapHeight: int, minRoomSize: int, maxRoomSize: int)
  {
    && minRoomSize <= r.w <= maxRoomSize && minRoomSize <= r.h <= maxRoomSize && 0 <= r.w && 0 <= r.h
    && 1 <= r.x && r.x + r.w <= mapWidth - 1 && (r.x + r.w <= mapWidth - 2 || r.w == mapWidth - 2)
    && 1 <= r.y && r.y + r.h <= mapHeight - 1 && (r.y + r.h <= mapHeight - 2 || r.h == mapHeight - 2)
  }

  /** Room number i of `GenerateRooms`, from the four draws starting at p:
      width, height, column, row, in that order. */
  function DrawnRoom(draws: nat -> int, p: nat, i: int, mapWidth: int, mapHeight: int, minRoomSize: int, maxRoomSize: int): (r: Room)
    requires 0 <= minRoomSize <= maxRoomSize && maxRoomSize <= mapWidth - 2 && maxRoomSize <= mapHeight - 2
    ensures r.index == i && minRoomSize <= r.w <= maxRoomSize && minRoomSize <= r.h <= maxRoomSize
  {
    var w := RangeOf(minRoomSize, maxRoomSize + 1, draws(p));
    var h := RangeOf(minRoomSize, maxRoomSize + 1, draws(p + 1));
    Room(RangeOf(1, mapWidth - w - 1, draws(p + 2)), RangeOf(1, mapHeight - h - 1, draws(p + 3)), w, h, i)
  }

  /** Under the size bounds, every drawn room fits the map off the border,
      whatever the draws. */
  lemma DrawnRoomFits(draws: nat -> int, p: nat, i: int, mapWidth: int, mapHeight: int, minRoomSize: int, maxRoomSize: int)
    requires 0 <= minRoomSize <= maxRoomSize && maxRoomSize <= mapWidth - 2 && maxRoomSize <= mapHeight - 2
    ensures Fits(DrawnRoom(draws, p, i, mapWidth, mapHeight, minRoomSize, maxRoomSize), mapWidth, mapHeight, minRoomSize, maxRoomSize)
  {
  }

  /** The first n rooms of `GenerateRooms`, room i from the four draws at
      p + 4i (`DrawnRoomsAt`). */
  function DrawnRooms(draws: nat -> int, p: nat, n: nat, mapWidth: int, mapHeight: int, minRoomSize: int, maxRoomSize: int): (rs: seq<Room>)
    requires 0 <= minRoomSize <= maxRoomSize && maxRoomSize <= mapWidth - 2 && maxRoomSize <= mapHeight - 2
    ensures |rs| == n
  {
    if n == 0 then []
    else DrawnRooms(draws, p, n - 1, mapWidth, mapHeight, minRoomSize, maxRoomSize)
         + [DrawnRoom(draws, p + 4 * (n - 1), n - 1, mapWidth, mapHeight, minRoomSize, maxRoomSize)]
  }

  /** One more room: the next four draws, from position q = p + 4n. */
  lemma DrawnRoomsSnoc(draws: nat -> int, p: nat, n: nat, q: nat, mapWidth: int, mapHeight: int, minRoomSize: int, maxRoomSize: int)
    requires 0 <= minRoomSize <= maxRoomSize && maxRoomSize <= mapWidth - 2 && maxRoomSize <= mapHeight - 2
    requires q == p + 4 * n
    ensures DrawnRooms(draws, p, n + 1, mapWidth, mapHeight, minRoomSize, maxRoomSize)
            == DrawnRooms(draws, p, n, mapWidth, mapHeight, minRoomSize, maxRoomSize) + [DrawnRoom(draws, q, n, mapWidth, mapHeight, minRoomSize, maxRoomSize)]
  {
  }

  /** Room i of the list is the one drawn from the four draws at p + 4i. */
  lemma {:induction false} DrawnRoomsAt(draws: nat -> int, p: nat, n: nat, mapWidth: int, mapHeight: int, minRoomSize: int, maxRoomSize: int, i: int)
    requires 0 <= minRoomSize <= maxRoomSize && maxRoomSize <= mapWidth - 2 && maxRoomSize <= mapHeight - 2
    requires 0 <= i < n
    ensures DrawnRooms(draws, p, n, mapWidth, mapHeight, minRoomSize, maxRoomSize)[i]
            == DrawnRoom(draws, p + 4 * i, i, mapWidth, mapHeight, minRoomSize, maxRoomSize)
  {
    if i < n - 1 {
      DrawnRoomsAt(draws, p, n - 1, mapWidth, mapHeight, minRoomSize, maxRoomSize, i);
    }
  }

  ghost predicate InSomeRoom(rooms: seq<Room>, x: int, y: int)
  {
    exists i | 0 <= i < |rooms| :: rooms[i].Contains(x, y)
  }

  /** No room occurs twice. */
  ghost predicate NoDup(s: seq<Room>)
  {
    forall r :: multiset(s)[r] <= 1
  }

  /** A cell is in one of the rooms after appending `room` exactly when it
      was in one before or is in `room`. */
  lemma InSomeRoomSnoc(rooms: seq<Room>, room: Room, x: int, y: int)
    ensures InSomeRoom(rooms + [room], x, y) <==> InSomeRoom(rooms, x, y) || room.Contains(x, y)
  {
    var s := rooms + [room];
    if InSomeRoom(rooms, x, y) {
      var k :| 0 <= k < |rooms| && rooms[k].Contains(x, y);
      assert s[k] == rooms[k];
    }
    if room.Contains(x, y) {
      assert s[|rooms|] == room;
    }
  }

  /** The map after the rooms are stamped over g in list order, as the
      loop of `GenerateRooms` does. */
  function StampRooms(g: Grid, w: int, h: int, rooms: seq<Room>): (s: Grid)
    requires Shaped(g, w, h)
    ensures Shaped(s, w, h)
  {
    if rooms == [] then g
    else
      var r := rooms[|rooms| - 1];
      FillRect(StampRooms(g, w, h, rooms[..|rooms| - 1]), w, h, r.x, r.y, r.w, r.h)
  }

  lemma StampRoomsSnoc(g: Grid, w: int, h: int, rooms: seq<Room>, r: Room)
    requires Shaped(g, w, h)
    ensures StampRooms(g, w, h, rooms + [r]) == FillRect(StampRooms(g, w, h, rooms), w, h, r.x, r.y, r.w, r.h)
  {
    assert (rooms + [r])[..|rooms|] == rooms;
  }

  /** After stamping, a cell is floor exactly when some room contains it;
      every other cell keeps its value. */
  lemma {:induction false} StampRoomsCells(g: Grid, w: int, h: int, rooms: seq<Room>, x: int, y: int)
    requires Shaped(g, w, h) && InBounds(x, y, w, h)
    ensures StampRooms(g, w, h, rooms)[x][y] == if InSomeRoom(rooms, x, y) then 1 else g[x][y]
    decreases |rooms|
  {
    if rooms != [] {
      var init, r := rooms[..|rooms| - 1], rooms[|rooms| - 1];
      StampRoomsCells(g, w, h, init, x, y);
      assert rooms == init + [r];
      InSomeRoomSnoc(init, r, x, y);
    }
  }

  /** Rooms numbered in list order are pairwise distinct. */
  lemma {:induction false} NumberedRoomsDistinct(s: seq<Room>, first: int)
    requires forall i | 0 <= i < |s| :: s[i].index == first + i
    ensures NoDup(s)
  {
    if s != [] {
      NumberedRoomsDistinct(s[1..], first + 1);
      assert s == [s[0]] + s[1..];
      assert s[0] !in s[1..] by {
        forall i | 0 <= i < |s[1..]| ensures s[1..][i] != s[0] {
          assert s[1..][i].index == first + 1 + i;
        }
      }
      assert multiset(s) == multiset{s[0]} + multiset(s[1..]);
    }
  }

  // ---------------------------------------------------------------------
  // Corridors
  // ---------------------------------------------------------------------

  /** v is on the run that starts at `from` and steps toward `to`, stopping
      before it reaches `to`. */
  predicate OnRun(v: int, from: int, to: int)
  {
    (from <= v < to) || (to < v <= from)
  }

  /** The cells `CarveCorridor(a, b)` sets: the row of `a` from a.x toward
      b.x, then the column of `b` from a.y toward b.y. */
  predicate OnCorridor(a: Cell, b: Cell, x: int, y: int)
  {
    (y == a.1 && OnRun(x, a.0, b.0)) || (x == b.0 && OnRun(y, a.1, b.1))
  }

  /** A corridor starts at `a` (unless a == b), never contains `b`, and
      stays in the bounding box of the two. */
  lemma CorridorShape(a: Cell, b: Cell, x: int, y: int)
    ensures a != b ==> OnCorridor(a, b, a.0, a.1)
    ensures !OnCorridor(a, b, b.0, b.1)
    ensures OnCorridor(a, b, x, y) ==>
              (a.0 <= x <= b.0 || b.0 <= x <= a.0) && (a.1 <= y <= b.1 || b.1 <= y <= a.1)
  {
  }

  /** Some corridor of the listed edges passes through (x, y). */
  ghost predicate OnSomeCorridor(edges: seq<Edge>, x: int, y: int)
  {
    exists k | 0 <= k < |edges| :: OnCorridor(edges[k].a.Center(), edges[k].b.Center(), x, y)
  }

  // ---------------------------------------------------------------------
  // Prim's algorithm
  // ---------------------------------------------------------------------

  function PairDist(connected: seq<Room>, remaining: seq<Room>, i: int, j: int): int
    requires 0 <= i < |connected| && 0 <= j < |remaining|
  {
    DistSq(connected[i].Center(), remaining[j].Center())
  }

  /** (i1, j1) comes before (i2, j2) in the order of the two nested loops. */
  predicate Before(i1: int, j1: int, i2: int, j2: int)
  {
    i1 < i2 || (i1 == i2 && j1 < j2)
  }

  /** The scan of one round: the pair (connected[ia], remaining[ib]) is at
      the least distance, and every pair scanned before it is strictly
      farther, so ties go to the first pair found. */
  method FindClosestPair(connected: seq<Room>, remaining: seq<Room>) returns (ia: int, ib: int)
    requires |connected| >= 1 && |remaining| >= 1
    ensures 0 <= ia < |connected| && 0 <= ib < |remaining|
    ensures forall i, j | 0 <= i < |connected| && 0 <= j < |remaining| ::
              PairDist(connected, remaining, ia, ib) <= PairDist(connected, remaining, i, j)
    ensures forall i, j | 0 <= i < |connected| && 0 <= j < |remaining| && Before(i, j, ia, ib) ::
              PairDist(connected, remaining, ia, ib) < PairDist(connected, remaining, i, j)
  {
    var found := false;
    var best := 0;
    ia, ib := 0, 0;
    var i := 0;
    while i < |connected|
      invariant 0 <= i <= |connected|
      invariant found <==> i > 0
      invariant found ==> 0 <= ia < i && 0 <= ib < |remaining| && best == PairDist(connected, remaining, ia, ib)
      invariant forall i', j' | 0 <= i' < i && 0 <= j' < |remaining| ::
                  best <= PairDist(connected, remaining, i', j')
      invariant forall i', j' | 0 <= i' < i && 0 <= j' < |remaining| && Before(i', j', ia, ib) ::
                  best < PairDist(connected, remaining, i', j')
    {
      var j := 0;
      while j < |remaining|
        invariant 0 <= j <= |remaining|
        invariant found <==> (i > 0 || j > 0)
        invariant found ==> 0 <= ia < |connected| && 0 <= ib < |remaining| && Before(ia, ib, i, j)
                            && best == PairDist(connected, remaining, ia, ib)
        invariant forall i', j' | 0 <= i' < |connected| && 0 <= j' < |remaining| && Before(i', j', i, j) ::
                    best <= PairDist(connected, remaining, i', j')
        invariant forall i', j' | 0 <= i' < |connected| && 0 <= j' < |remaining| && Before(i', j', i, j) && Before(i', j', ia, ib) ::
                    best < PairDist(connected, remaining, i', j')
      {
        var d := DistSq(connected[i].Center(), remaining[j].Center());
        if !found || d < best {
          found, best, ia, ib := true, d, i, j;
        }
        j := j + 1;
      }
      i := i + 1;
    }
  }

  /** `remaining.Remove(v)`: drops the first occurrence of v. */
  function RemoveFirst(s: seq<Room>, v: Room): (r: seq<Room>)
    ensures v in s ==> multiset(r) == multiset(s) - multiset{v} && |r| == |s| - 1
    ensures v !in s ==> r == s
  {
    if s == [] then []
    else if s[0] == v then
      assert s == [s[0]] + s[1..];
      s[1..]
    else
      assert s == [s[0]] + s[1..];
      [s[0]] + RemoveFirst(s[1..], v)
  }

  /** The edges of a Prim run, given the order in which rooms were connected:
      edge k attaches connected[k + 1] to a room connected before it. */
  ghost predicate PrimTree(connected: seq<Room>, edges: seq<Edge>)
  {
    && |connected| >= 1
    && |edges| == |connected| - 1
    && forall k | 0 <= k < |edges| ::
         edges[k].b == connected[k + 1] && edges[k].a in connected[..k + 1]
         && edges[k].weight == DistSq(edges[k].a.Center(), edges[k].b.Center())
  }

  /** Each edge is no longer than any pair between the rooms connected before
      it and a room not yet connected. */
  ghost predicate Greedy(rooms: seq<Room>, connected: seq<Room>, edges: seq<Edge>)
    requires |edges| < |connected|
  {
    forall k, i, j | 0 <= k < |edges| && 0 <= i <= k && 0 <= j < |rooms| && rooms[j] !in connected[..k + 1] ::
      edges[k].weight <= DistSq(connected[i].Center(), rooms[j].Center())
  }

  /** The state of Prim's algorithm after some rounds: the connected and
      remaining rooms split the room list, and the edges form a greedy tree
      over the connected rooms, each edge attaching a newly connected room. */
  ghost predicate PrimState(rooms: seq<Room>, connected: seq<Room>, remaining: seq<Room>, edges: seq<Edge>)
  {
    && NoDup(rooms) && |rooms| >= 1
    && |connected| >= 1 && connected[0] == rooms[0]
    && multiset(connected) + multiset(remaining) == multiset(rooms)
    && PrimTree(connected, edges) && Greedy(rooms, connected, edges)
    && forall k | 0 <= k < |edges| :: edges[k].b !in connected[..k + 1]
  }

  /** Before the first round only the first room is connected. */
  lemma PrimStart(rooms: seq<Room>)
    requires NoDup(rooms) && |rooms| >= 1
    ensures PrimState(rooms, [rooms[0]], rooms[1..], [])
  {
    assert rooms == [rooms[0]] + rooms[1..];
  }

  /** Moving a remaining room to the connected list keeps the two lists a
      split of the rooms; the room was not connected before. */
  lemma MoveRoom(rooms: seq<Room>, connected: seq<Room>, remaining: seq<Room>, ia: int, ib: int)
    requires NoDup(rooms) && multiset(connected) + multiset(remaining) == multiset(rooms)
    requires 0 <= ia < |connected| && 0 <= ib < |remaining|
    ensures connected[ia] in rooms && remaining[ib] in rooms && remaining[ib] !in connected
    ensures multiset(connected + [remaining[ib]]) + multiset(RemoveFirst(remaining, remaining[ib])) == multiset(rooms)
  {
    var a, b := connected[ia], remaining[ib];
    assert multiset(connected)[a] >= 1;
    assert multiset(rooms)[a] >= 1;
    assert multiset(remaining)[b] >= 1;
    assert multiset(rooms)[b] <= 1;
    assert multiset(connected)[b] + multiset(remaining)[b] == multiset(rooms)[b];
    assert multiset(connected + [b]) == multiset(connected) + multiset{b};
  }

  /** A room that is in neither list of the split is in the remaining one. */
  lemma NotConnectedIsRemaining(rooms: seq<Room>, connected: seq<Room>, remaining: seq<Room>, r: Room)
    requires multiset(connected) + multiset(remaining) == multiset(rooms)
    requires r in rooms && r !in connected
    ensures r in remaining
  {
    assert multiset(rooms)[r] >= 1;
    assert multiset(connected)[r] == 0;
  }

  /** Attaching a room to the connected list keeps the edges a tree over it. */
  lemma TreeStep(connected: seq<Room>, edges: seq<Edge>, a: Room, b: Room)
    requires PrimTree(connected, edges) && forall k | 0 <= k < |edges| :: edges[k].b !in connected[..k + 1]
    requires a in connected && b !in connected
    ensures var c, e := connected + [b], edges + [MakeEdge(a, b)];
            PrimTree(c, e) && forall k | 0 <= k < |e| :: e[k].b !in c[..k + 1]
  {
    var c, e := connected + [b], edges + [MakeEdge(a, b)];
    assert c[..|connected|] == connected;
    forall k | 0 <= k < |e|
      ensures e[k].b == c[k + 1] && e[k].a in c[..k + 1] && e[k].b !in c[..k + 1]
    {
      if k < |edges| {
        assert c[..k + 1] == connected[..k + 1];
      }
    }
  }

  /** Attaching the closest remaining room keeps every edge greedy. */
  lemma GreedyStep(rooms: seq<Room>, connected: seq<Room>, remaining: seq<Room>, edges: seq<Edge>, ia: int, ib: int)
    requires multiset(connected) + multiset(remaining) == multiset(rooms)
    requires |edges| < |connected| && Greedy(rooms, connected, edges) && |edges| + 1 == |connected|
    requires 0 <= ia < |connected| && 0 <= ib < |remaining|
    requires forall i, j | 0 <= i < |connected| && 0 <= j < |remaining| ::
               PairDist(connected, remaining, ia, ib) <= PairDist(connected, remaining, i, j)
    ensures Greedy(rooms, connected + [remaining[ib]], edges + [MakeEdge(connected[ia], remaining[ib])])
  {
    var c, e := connected + [remaining[ib]], edges + [MakeEdge(connected[ia], remaining[ib])];
    forall k, i, j | 0 <= k < |e| && 0 <= i <= k && 0 <= j < |rooms| && rooms[j] !in c[..k + 1]
      ensures e[k].weight <= DistSq(c[i].Center(), rooms[j].Center())
    {
      assert c[..k + 1] == connected[..k + 1];
      assert c[i] == connected[i];
      if k == |edges| {
        assert connected[..k + 1] == connected;
        NotConnectedIsRemaining(rooms, connected, remaining, rooms[j]);
        var j' :| 0 <= j' < |remaining| && remaining[j'] == rooms[j];
        assert PairDist(connected, remaining, ia, ib) <= PairDist(connected, remaining, i, j');
      }
    }
  }

  /** One round of Prim's algorithm: connecting the closest remaining room
      keeps the state. */
  lemma PrimStep(rooms: seq<Room>, connected: seq<Room>, remaining: seq<Room>, edges: seq<Edge>, ia: int, ib: int)
    requires PrimState(rooms, connected, remaining, edges)
    requires 0 <= ia < |connected| && 0 <= ib < |remaining|
    requires forall i, j | 0 <= i < |connected| && 0 <= j < |remaining| ::
               PairDist(connected, remaining, ia, ib) <= PairDist(connected, remaining, i, j)
    ensures connected[ia] in rooms && remaining[ib] in rooms
    ensures PrimState(rooms, connected + [remaining[ib]], RemoveFirst(remaining, remaining[ib]),
                      edges + [MakeEdge(connected[ia], remaining[ib])])
  {
    MoveRoom(rooms, connected, remaining, ia, ib);
    TreeStep(connected, edges, connected[ia], remaining[ib]);
    GreedyStep(rooms, connected, remaining, edges, ia, ib);
  }

  /** Adding an edge adds its corridor to the carved cells. */
  lemma CorridorsAppend(edges: seq<Edge>, e: Edge, x: int, y: int)
    ensures OnSomeCorridor(edges + [e], x, y) <==>
              OnSomeCorridor(edges, x, y) || OnCorridor(e.a.Center(), e.b.Center(), x, y)
  {
    var s := edges + [e];
    if OnSomeCorridor(edges, x, y) {
      var k :| 0 <= k < |edges| && OnCorridor(edges[k].a.Center(), edges[k].b.Center(), x, y);
      assert s[k] == edges[k];
    }
    if OnCorridor(e.a.Center(), e.b.Center(), x, y) {
      assert s[|edges|] == e;
    }
    if OnSomeCorridor(s, x, y) {
      var k :| 0 <= k < |s| && OnCorridor(s[k].a.Center(), s[k].b.Center(), x, y);
      if k < |edges| {
        assert s[k] == edges[k];
      }
    }
  }

  /** Some edge joins p and q, in either direction. */
  ghost predicate Joined(edges: seq<Edge>, p: Room, q: Room)
  {
    exists k | 0 <= k < |edges| :: (edges[k].a == p && edges[k].b == q) || (edges[k].a == q && edges[k].b == p)
  }

  /** A path of rooms whose consecutive members are joined by an edge. */
  ghost predicate IsPath(edges: seq<Edge>, path: seq<Room>)
  {
    forall i | 0 <= i < |path| - 1 :: Joined(edges, path[i], path[i + 1])
  }

  /** The path from connected[i] back to the first room, following each
      room's edge to the room it was attached to. */
  ghost function PathToFirst(connected: seq<Room>, edges: seq<Edge>, i: int): (p: seq<Room>)
    requires PrimTree(connected, edges) && 0 <= i < |connected|
    ensures |p| >= 1 && p[0] == connected[i] && p[|p| - 1] == connected[0]
    ensures IsPath(edges, p)
    decreases i
  {
    if i == 0 then [connected[0]]
    else
      var j :| 0 <= j < i && connected[j] == edges[i - 1].a;
      var rest := PathToFirst(connected, edges, j);
      var p := [connected[i]] + rest;
      assert Joined(edges, p[0], p[1]) by {
        assert edges[i - 1].b == connected[i];
      }
      assert forall t | 1 <= t < |p| - 1 :: p[t] == rest[t - 1] && p[t + 1] == rest[t];
      p
  }

  function Reverse(s: seq<Room>): (r: seq<Room>)
    ensures |r| == |s| && forall i | 0 <= i < |s| :: r[i] == s[|s| - 1 - i]
  {
    if s == [] then [] else Reverse(s[1..]) + [s[0]]
  }

  /** A path walked backwards is a path. */
  lemma ReverseIsPath(edges: seq<Edge>, p: seq<Room>)
    requires IsPath(edges, p)
    ensures IsPath(edges, Reverse(p))
  {
    var r := Reverse(p);
    forall i | 0 <= i < |r| - 1
      ensures Joined(edges, r[i], r[i + 1])
    {
      var t := |p| - 2 - i;
      assert r[i] == p[t + 1] && r[i + 1] == p[t];
      assert Joined(edges, p[t], p[t + 1]);
    }
  }

  /** The edges connect every two connected rooms: with |connected| - 1
      edges, they form a spanning tree of them. */
  lemma PrimTreeSpans(connected: seq<Room>, edges: seq<Edge>, i: int, j: int) returns (p: seq<Room>)
    requires PrimTree(connected, edges) && 0 <= i < |connected| && 0 <= j < |connected|
    ensures |p| >= 1 && p[0] == connected[i] && p[|p| - 1] == connected[j] && IsPath(edges, p)
  {
    var pi := PathToFirst(connected, edges, i);
    var back := Reverse(PathToFirst(connected, edges, j));
    ReverseIsPath(edges, PathToFirst(connected, edges, j));
    p := pi + back[1..];
    forall t | 0 <= t < |p| - 1
      ensures Joined(edges, p[t], p[t + 1])
    {
      if t < |pi| - 1 {
        assert p[t] == pi[t] && p[t + 1] == pi[t + 1];
      } else {
        assert p[t] == back[t - |pi| + 1] && p[t + 1] == back[t - |pi| + 2];
      }
    }
  }

  // ---------------------------------------------------------------------
  // The generator
  // ---------------------------------------------------------------------

  class MstGenerator {
    const mapWidth: int
    const mapHeight: int
    const roomCount: int
    const minRoomSize: int
    const maxRoomSize: int
    const rng: Random
    /** `map` in the source: 0 = wall, 1 = floor. */
    const mapGrid: array2<int>
    var rooms: seq<Room>
    var mstEdges: seq<Edge>

    /** The map is binary, the rooms are numbered in order and fit, and every
        room cell is floor. */
    ghost predicate Valid()
      reads this, mapGrid
    {
      && mapGrid.Length0 == mapWidth && mapGrid.Length1 == mapHeight
      && Binary(View(mapGrid), mapWidth, mapHeight)
      && (forall i | 0 <= i < |rooms| ::
            rooms[i].index == i && Fits(rooms[i], mapWidth, mapHeight, minRoomSize, maxRoomSize))
      && (forall i, x, y | 0 <= i < |rooms| && rooms[i].Contains(x, y) :: InBounds(x, y, mapWidth, mapHeight) && mapGrid[x, y] == 1)
    }

    /** The generator as `Start` finds it: the map allocated all wall, no
        rooms, no edges. */
    constructor (mapWidth: nat, mapHeight: nat, roomCount: int, minRoomSize: int, maxRoomSize: int, rng: Random)
      ensures Valid() && fresh(mapGrid)
      ensures this.mapWidth == mapWidth && this.mapHeight == mapHeight && this.roomCount == roomCount
      ensures this.minRoomSize == minRoomSize && this.maxRoomSize == maxRoomSize && this.rng == rng
      ensures rooms == [] && mstEdges == []
    {
      this.mapWidth := mapWidth;
      this.mapHeight := mapHeight;
      this.roomCount := roomCount;
      this.minRoomSize := minRoomSize;
      this.maxRoomSize := maxRoomSize;
      this.rng := rng;
      mapGrid := new int[mapWidth, mapHeight]((x, y) => 0);
      rooms := [];
      mstEdges := [];
    }

    /** Every room's centre is a cell of the map. */
    lemma RoomCenterInGrid(r: Room)
      requires Valid() && r in rooms
      ensures InBounds(r.Center().0, r.Center().1, mapWidth, mapHeight)
    {
      var j :| 0 <= j < |rooms| && rooms[j] == r;
      assert Fits(r, mapWidth, mapHeight, minRoomSize, maxRoomSize);
    }

    /** `InitializeMap`: every cell becomes wall. */
    method InitializeMap()
      requires Valid() && rooms == []
      modifies mapGrid
      ensures Valid()
      ensures forall x, y | InBounds(x, y, mapWidth, mapHeight) :: mapGrid[x, y] == 0
    {
      var x := 0;
      while x < mapWidth
        invariant 0 <= x <= mapWidth
        invariant forall i, j | InBounds(i, j, mapWidth, mapHeight) :: mapGrid[i, j] == 0 || (i >= x && mapGrid[i, j] == old(mapGrid[i, j]))
      {
        var y := 0;
        while y < mapHeight
          invariant 0 <= y <= mapHeight
          invariant forall i, j | InBounds(i, j, mapWidth, mapHeight) ::
                      mapGrid[i, j] == 0 || (Before(x, y, i, j + 1) && mapGrid[i, j] == old(mapGrid[i, j]))
        {
          mapGrid[x, y] := 0;
          y := y + 1;
        }
        x := x + 1;
      }
    }

    /** `GenerateRooms`: `roomCount` rooms of random size and position, each
        stamped as floor. */
    method GenerateRooms()
      requires Valid() && rooms == []
      requires 0 <= minRoomSize <= maxRoomSize && maxRoomSize <= mapWidth - 2 && maxRoomSize <= mapHeight - 2
      modifies this, mapGrid, rng
      ensures Valid() && mstEdges == old(mstEdges)
      ensures |rooms| == if roomCount > 0 then roomCount else 0
      ensures rng.position == old(rng.position) + 4 * |rooms|
      ensures rooms == DrawnRooms(rng.draws, old(rng.position), |rooms|, mapWidth, mapHeight, minRoomSize, maxRoomSize)
      ensures forall x, y | InBounds(x, y, mapWidth, mapHeight) ::
                mapGrid[x, y] == if InSomeRoom(rooms, x, y) then 1 else old(mapGrid[x, y])
    {
      ghost var g0 := View(mapGrid);
      var i := 0;
      while i < roomCount
        invariant Valid() && mstEdges == old(mstEdges)
        invariant |rooms| == i && (roomCount >= 0 ==> i <= roomCount) && (roomCount < 0 ==> i == 0)
        invariant rng.position == old(rng.position) + 4 * i
        invariant rooms == DrawnRooms(rng.draws, old(rng.position), i, mapWidth, mapHeight, minRoomSize, maxRoomSize)
        invariant View(mapGrid) == StampRooms(g0, mapWidth, mapHeight, rooms)
      {
        AddRoom(i, old(rng.position), g0);
        i := i + 1;
      }
      forall x, y | InBounds(x, y, mapWidth, mapHeight)
        ensures mapGrid[x, y] == if InSomeRoom(rooms, x, y) then 1 else old(mapGrid[x, y])
      {
        StampRoomsCells(g0, mapWidth, mapHeight, rooms, x, y);
      }
    }

    /** One pass of the loop in `GenerateRooms`: draw room i, add it to the
        list and stamp its cells as floor. The rooms so far are those of
        the draws from p, stamped over g0. */
    method AddRoom(i: nat, ghost p: nat, ghost g0: Grid)
      requires Valid() && |rooms| == i && Shaped(g0, mapWidth, mapHeight)
      requires 0 <= minRoomSize <= maxRoomSize && maxRoomSize <= mapWidth - 2 && maxRoomSize <= mapHeight - 2
      requires rng.position == p + 4 * i && rooms == DrawnRooms(rng.draws, p, i, mapWidth, mapHeight, minRoomSize, maxRoomSize)
      requires View(mapGrid) == StampRooms(g0, mapWidth, mapHeight, rooms)
      modifies this, mapGrid, rng
      ensures Valid() && mstEdges == old(mstEdges)
      ensures rng.position == p + 4 * (i + 1)
      ensures rooms == DrawnRooms(rng.draws, p, i + 1, mapWidth, mapHeight, minRoomSize, maxRoomSize)
      ensures View(mapGrid) == StampRooms(g0, mapWidth, mapHeight, rooms)
    {
      ghost var q, before, gb := rng.position, rooms, View(mapGrid);
      var room := DrawRoom(i);
      DrawnRoomFits(rng.draws, q, i, mapWidth, mapHeight, minRoomSize, maxRoomSize);
      DrawnRoomsSnoc(rng.draws, p, i, q, mapWidth, mapHeight, minRoomSize, maxRoomSize);
      PlaceRoom(room);
      StampRoomsSnoc(g0, mapWidth, mapHeight, before, room);
      Ext(View(mapGrid), FillRect(gb, mapWidth, mapHeight, room.x, room.y, room.w, room.h), mapWidth, mapHeight);
    }

    /** `rooms.Add(newRoom)` and the stamping loops: the room joins the list
        and its cells become floor. */
    method PlaceRoom(room: Room)
      requires Valid() && room.index == |rooms| && Fits(room, mapWidth, mapHeight, minRoomSize, maxRoomSize)
      modifies this, mapGrid
      ensures Valid() && mstEdges == old(mstEdges) && rooms == old(rooms) + [room]
      ensures forall x, y | InBounds(x, y, mapWidth, mapHeight) ::
                mapGrid[x, y] == if room.Contains(x, y) then 1 else old(mapGrid[x, y])
    {
      rooms := rooms + [room];
      Stamp(room);
      forall x, y | InBounds(x, y, mapWidth, mapHeight)
        ensures View(mapGrid)[x][y] == 0 || View(mapGrid)[x][y] == 1
      {
        assert old(View(mapGrid))[x][y] == old(mapGrid[x, y]);
      }
      forall j, x, y | 0 <= j < |rooms| && rooms[j].Contains(x, y)
        ensures InBounds(x, y, mapWidth, mapHeight) && mapGrid[x, y] == 1
      {
        if j < |rooms| - 1 {
          assert rooms[j] == old(rooms)[j];
        }
      }
    }

    /** The four draws at the head of `GenerateRooms`' loop body, and the
        room they make. */
    method DrawRoom(i: int) returns (room: Room)
      requires 0 <= minRoomSize <= maxRoomSize && maxRoomSize <= mapWidth - 2 && maxRoomSize <= mapHeight - 2
      modifies rng
      ensures rng.position == old(rng.position) + 4
      ensures room == DrawnRoom(rng.draws, old(rng.position), i, mapWidth, mapHeight, minRoomSize, maxRoomSize)
    {
      var w, h := DrawSize();
      var x, y := DrawPlace(w, h);
      room := Room(x, y, w, h, i);
    }

    /** The first two draws of a room: its width and height. */
    method DrawSize() returns (w: int, h: int)
      requires 0 <= minRoomSize <= maxRoomSize
      modifies rng
      ensures rng.position == old(rng.position) + 2
      ensures w == RangeOf(minRoomSize, maxRoomSize + 1, rng.draws(old(rng.position)))
      ensures h == RangeOf(minRoomSize, maxRoomSize + 1, rng.draws(old(rng.position) + 1))
    {
      w := rng.Range(minRoomSize, maxRoomSize + 1);
      h := rng.Range(minRoomSize, maxRoomSize + 1);
    }

    /** The last two draws of a room: the column and row of its corner. */
    method DrawPlace(w: int, h: int) returns (x: int, y: int)
      requires w <= mapWidth - 2 && h <= mapHeight - 2
      modifies rng
      ensures rng.position == old(rng.position) + 2
      ensures x == RangeOf(1, mapWidth - w - 1, rng.draws(old(rng.position)))
      ensures y == RangeOf(1, mapHeight - h - 1, rng.draws(old(rng.position) + 1))
    {
      x := rng.Range(1, mapWidth - w - 1);
      y := rng.Range(1, mapHeight - h - 1);
    }

    /** The inner loops of `GenerateRooms`: the room's cells become floor. */
    method Stamp(room: Room)
      requires mapGrid.Length0 == mapWidth && mapGrid.Length1 == mapHeight
      requires 0 <= room.w && 0 <= room.x && room.x + room.w <= mapWidth
      requires 0 <= room.h && 0 <= room.y && room.y + room.h <= mapHeight
      modifies mapGrid
      ensures forall px, py | InBounds(px, py, mapWidth, mapHeight) ::
                mapGrid[px, py] == if room.Contains(px, py) then 1 else old(mapGrid[px, py])
    {
      var rx := room.x;
      while rx < room.x + room.w
        invariant room.x <= rx <= room.x + room.w
        invariant forall px, py | InBounds(px, py, mapWidth, mapHeight) ::
                    mapGrid[px, py] == if room.x <= px < rx && room.y <= py < room.y + room.h then 1 else old(mapGrid[px, py])
      {
        var ry := room.y;
        while ry < room.y + room.h
          invariant room.y <= ry <= room.y + room.h
          invariant forall px, py | InBounds(px, py, mapWidth, mapHeight) ::
                      mapGrid[px, py] == if (room.x <= px < rx && room.y <= py < room.y + room.h) || (px == rx && room.y <= py < ry) then 1
                                         else old(mapGrid[px, py])
        {
          mapGrid[rx, ry] := 1;
          ry := ry + 1;
        }
        rx := rx + 1;
      }
    }

    /** `CarveCorridor(a, b)`: exactly the corridor cells become floor. */
    method CarveCorridor(a: Cell, b: Cell)
      requires Valid()
      requires InBounds(a.0, a.1, mapWidth, mapHeight) && InBounds(b.0, b.1, mapWidth, mapHeight)
      modifies mapGrid
      ensures Valid()
      ensures forall x, y | InBounds(x, y, mapWidth, mapHeight) ::
                mapGrid[x, y] == if OnCorridor(a, b, x, y) then 1 else old(mapGrid[x, y])
    {
      var curX, curY := a.0, a.1;
      while curX != b.0
        invariant a.0 <= curX <= b.0 || b.0 <= curX <= a.0
        invariant forall x, y | InBounds(x, y, mapWidth, mapHeight) ::
                    mapGrid[x, y] == if y == a.1 && OnRun(x, a.0, curX) then 1 else old(mapGrid[x, y])
        decreases if curX < b.0 then b.0 - curX else curX - b.0
      {
        mapGrid[curX, curY] := 1;
        curX := curX + if b.0 > curX then 1 else -1;
      }
      while curY != b.1
        invariant a.1 <= curY <= b.1 || b.1 <= curY <= a.1
        invariant forall x, y | InBounds(x, y, mapWidth, mapHeight) ::
                    mapGrid[x, y] == if (y == a.1 && OnRun(x, a.0, b.0)) || (x == b.0 && OnRun(y, a.1, curY)) then 1
                                     else old(mapGrid[x, y])
        decreases if curY < b.1 then b.1 - curY else curY - b.1
      {
        mapGrid[curX, curY] := 1;
        curY := curY + if b.1 > curY then 1 else -1;
      }
    }

    /** `GenerateMST`: Prim's algorithm from the first room. `order` is the
        `connected` list at the end. With no rooms the source fails on
        `remaining[0]`; then `ok` is false and nothing changes. */
    method GenerateMST() returns (ok: bool, ghost order: seq<Room>)
      requires Valid()
      modifies this, mapGrid
      ensures Valid() && rooms == old(rooms)
      ensures ok <==> |rooms| > 0
      ensures !ok ==> mstEdges == old(mstEdges) && forall x, y | InBounds(x, y, mapWidth, mapHeight) :: mapGrid[x, y] == old(mapGrid[x, y])
      ensures ok ==>
                && |mstEdges| == |old(mstEdges)| + |rooms| - 1 && mstEdges[..|old(mstEdges)|] == old(mstEdges)
                && var added := mstEdges[|old(mstEdges)|..];
                && multiset(order) == multiset(rooms) && order[0] == rooms[0]
                && PrimTree(order, added) && Greedy(rooms, order, added)
                && (forall k | 0 <= k < |added| :: added[k].b !in order[..k + 1])
                && forall x, y | InBounds(x, y, mapWidth, mapHeight) ::
                     mapGrid[x, y] == if OnSomeCorridor(added, x, y) then 1 else old(mapGrid[x, y])
    {
      if |rooms| == 0 {
        return false, [];
      }
      ghost var e0 := mstEdges;
      ghost var rs := rooms;
      ghost var g0 := View(mapGrid);
      NumberedRoomsDistinct(rs, 0);
      ghost var added: seq<Edge> := [];
      var connected := [rooms[0]];
      var remaining := rooms[1..];
      PrimStart(rs);
      while |remaining| > 0
        invariant Valid() && rooms == rs
        invariant mstEdges == e0 + added
        invariant PrimState(rs, connected, remaining, added)
        invariant forall x, y | InBounds(x, y, mapWidth, mapHeight) ::
                    mapGrid[x, y] == if OnSomeCorridor(added, x, y) then 1 else g0[x][y]
        decreases |remaining|
      {
        var ia, ib := FindClosestPair(connected, remaining);
        var bestA, bestB := connected[ia], remaining[ib];
        PrimStep(rs, connected, remaining, added, ia, ib);
        AddEdge(bestA, bestB, added, g0);
        added := added + [MakeEdge(bestA, bestB)];
        connected := connected + [bestB];
        remaining := RemoveFirst(remaining, bestB);
      }
      assert mstEdges[|e0|..] == added;
      assert |connected| == |multiset(connected)| == |multiset(rs)| == |rs|;
      ok, order := true, connected;
    }

    /** One pass of the loop in `GenerateMST`: record the edge a–b and carve
        the corridor between the two centres. */
    method AddEdge(a: Room, b: Room, ghost added: seq<Edge>, ghost g0: Grid)
      requires Valid() && a in rooms && b in rooms && Shaped(g0, mapWidth, mapHeight)
      requires forall x, y | InBounds(x, y, mapWidth, mapHeight) ::
                 mapGrid[x, y] == if OnSomeCorridor(added, x, y) then 1 else g0[x][y]
      modifies this, mapGrid
      ensures Valid() && rooms == old(rooms)
      ensures mstEdges == old(mstEdges) + [MakeEdge(a, b)]
      ensures forall x, y | InBounds(x, y, mapWidth, mapHeight) ::
                mapGrid[x, y] == if OnSomeCorridor(added + [MakeEdge(a, b)], x, y) then 1 else g0[x][y]
    {
      var e := MakeEdge(a, b);
      mstEdges := mstEdges + [e];
      RoomCenterInGrid(a);
      RoomCenterInGrid(b);
      CarveCorridor(a.Center(), b.Center());
      forall x, y | InBounds(x, y, mapWidth, mapHeight)
        ensures mapGrid[x, y] == if OnSomeCorridor(added + [e], x, y) then 1 else g0[x][y]
      {
        CorridorsAppend(added, e, x, y);
      }
    }

    /** `Start` without the tile objects: wall everywhere, the rooms, then
        the corridors of the spanning tree. `ok` is false when there are no
        rooms, where the source fails inside `GenerateMST`. `order` is the
        order in which Prim's algorithm connected the rooms. */
    method Start() returns (ok: bool, ghost order: seq<Room>)
      requires Valid() && rooms == [] && mstEdges == []
      requires 0 <= minRoomSize <= maxRoomSize && maxRoomSize <= mapWidth - 2 && maxRoomSize <= mapHeight - 2
      modifies this, mapGrid, rng
      ensures Valid()
      ensures ok <==> roomCount > 0
      ensures |rooms| == if roomCount > 0 then roomCount else 0
      ensures ok ==> |mstEdges| == |rooms| - 1
      ensures rng.position == old(rng.position) + 4 * |rooms|
      ensures rooms == DrawnRooms(rng.draws, old(rng.position), |rooms|, mapWidth, mapHeight, minRoomSize, maxRoomSize)
      ensures ok ==> multiset(order) == multiset(rooms) && order[0] == rooms[0] && PrimTree(order, mstEdges) && Greedy(rooms, order, mstEdges)
      ensures forall x, y | InBounds(x, y, mapWidth, mapHeight) ::
                (mapGrid[x, y] == 1 <==> InSomeRoom(rooms, x, y) || OnSomeCorridor(mstEdges, x, y))
    {
      InitializeMap();
      GenerateRooms();
      ok, order := GenerateMST();
      if ok {
        assert mstEdges[0..] == mstEdges;
      }
    }

    /** `IsFloor`: false off the map, otherwise whether the cell is floor. */
    function IsFloor(x: int, y: int): (r: bool)
      reads this, mapGrid
      requires mapGrid.Length0 == mapWidth && mapGrid.Length1 == mapHeight
      ensures r ==> InBounds(x, y, mapWidth, mapHeight)
    {
      if x < 0 || y < 0 || x >= mapWidth || y >= mapHeight then false
      else mapGrid[x, y] == 1
    }

    /** Every room cell is floor, and corridors leave it so. */
    lemma RoomCellsAreFloor(i: int, x: int, y: int)
      requires Valid() && 0 <= i < |rooms| && rooms[i].Contains(x, y)
      ensures IsFloor(x, y)
    {
    }
  }
}
