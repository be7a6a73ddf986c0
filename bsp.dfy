/** The binary-space-partition dungeon (TileBSPDungeon.cs).

    `Split` cuts the map rectangle in two along one axis until both sides of
    a node are at most 2·minPartitionSize; `CreateRooms` puts one random room
    in each leaf and writes it into the grid as 1; `ConnectRooms` joins the
    first rooms of the two subtrees of every internal node with an L-shaped
    corridor written as 2 over empty cells only. 0 = empty.

    The tree the heap nodes form is mirrored by a ghost `Tree` value; the
    plans below compute, from the same stream of draws, the tree, the rooms
    and the grid that the methods produce, and the lemmas state what the
    source promises about them. */
module TileBsp {
  import opened Grids
  import opened Rand

  datatype Option<T> = None | Some(value: T)

  /** A node's rectangle. */
  datatype Rect = Rect(x: int, y: int, w: int, h: int)
  {
    predicate Contains(px: int, py: int)
    {
      x <= px < x + w && y <= py < y + h
    }
  }

  /** `Room`: a rectangle with a centre. */
  datatype Room = Room(x: int, y: int, width: int, height: int)
  {
    predicate Contains(px: int, py: int)
    {
      x <= px < x + width && y <= py < y + height
    }

    function CenterX(): int
    {
      x + width / 2
    }

    function CenterY(): int
    {
      y + height / 2
    }
  }

  /** A room's centre lies in the room whenever the room has a cell. */
  lemma CenterInRoom(room: Room)
    requires room.width >= 1 && room.height >= 1
    ensures room.Contains(room.CenterX(), room.CenterY())
  {
    assert 0 <= room.width / 2 < room.width;
    assert 0 <= room.height / 2 < room.height;
  }

  /** The value of a subtree of `BSPNode`s: a leaf holds its room once
      `CreateRooms` has run; an internal node holds its two children. */
  datatype Tree = Leaf(rect: Rect, room: Option<Room>) | Node(rect: Rect, left: Tree, right: Tree)

  // ---------------------------------------------------------------------
  // Splitting
  // ---------------------------------------------------------------------

  /** The leaf test of `Split`. */
  predicate Small(r: Rect, m: int)
  {
    r.w <= m * 2 && r.h <= m * 2
  }

  /** The cut `Split` makes in a node that is not small, from the coin at
      draw p and the cut position at draw p + 1: across the height when the
      coin says so and the height is more than 2m, or when the width is at
      most 2m; otherwise across the width. */
  function CutAt(r: Rect, m: int, draws: nat -> int, p: nat): (halves: (Rect, Rect))
    requires m >= 1 && r.w >= 0 && r.h >= 0 && !Small(r, m)
  {
    var splitHorizontal := draws(p) % 2 == 1;
    if (splitHorizontal && r.h > m * 2) || r.w <= m * 2 then
      var s := RangeOf(m, r.h - m, draws(p + 1));
      (Rect(r.x, r.y, r.w, s), Rect(r.x, r.y + s, r.w, r.h - s))
    else
      var s := RangeOf(m, r.w - m, draws(p + 1));
      (Rect(r.x, r.y, s, r.h), Rect(r.x + s, r.y, r.w - s, r.h))
  }

  /** The tree `Split` builds from a leaf with rectangle r, starting at draw
      p, and the position of the next unused draw: a small node stays a
      leaf; any other is cut with two draws and both halves are split in
      turn. */
  function SplitPlan(r: Rect, m: int, draws: nat -> int, p: nat): (res: (Tree, nat))
    requires m >= 1 && r.w >= 0 && r.h >= 0
    ensures res.0.rect == r && p <= res.1
    decreases r.w + r.h
  {
    if Small(r, m) then (Leaf(r, None), p)
    else
      var halves := CutAt(r, m, draws, p);
      CutAtCuts(r, m, draws, p);
      CutSmaller(r, halves.0, halves.1, m);
      var left := SplitPlan(halves.0, m, draws, p + 2);
      var right := SplitPlan(halves.1, m, draws, left.1);
      (Node(r, left.0, right.0), right.1)
  }

  /** The cut `Split` makes is a cut. */
  lemma CutAtCuts(r: Rect, m: int, draws: nat -> int, p: nat)
    requires m >= 1 && r.w >= 0 && r.h >= 0 && !Small(r, m)
    ensures Cut(r, CutAt(r, m, draws, p).0, CutAt(r, m, draws, p).1, m)
  {
  }

  /** a and b are the two halves of a cut of r: on the cut axis the first
      has a size in [m, dim − m − 1], the second the rest. */
  predicate Cut(r: Rect, a: Rect, b: Rect, m: int)
  {
    || (a == Rect(r.x, r.y, r.w, a.h) && b == Rect(r.x, r.y + a.h, r.w, r.h - a.h) && m <= a.h <= r.h - m - 1)
    || (a == Rect(r.x, r.y, a.w, r.h) && b == Rect(r.x + a.w, r.y, r.w - a.w, r.h) && m <= a.w <= r.w - m - 1)
  }

  /** The two halves of a cut tile the parent: every cell of r is in exactly
      one of them, and no cell outside r is in either. Both are strictly
      smaller than r on the cut axis and at least m there. */
  lemma CutTiles(r: Rect, a: Rect, b: Rect, m: int, px: int, py: int)
    requires m >= 1 && Cut(r, a, b, m)
    ensures r.Contains(px, py) <==> a.Contains(px, py) || b.Contains(px, py)
    ensures !(a.Contains(px, py) && b.Contains(px, py))
  {
  }

  /** Both halves of a cut are at least m on the cut axis and smaller than
      the parent; the other axis is the parent's. */
  lemma CutSmaller(r: Rect, a: Rect, b: Rect, m: int)
    requires m >= 1 && r.w >= 0 && r.h >= 0 && Cut(r, a, b, m)
    ensures a.w >= 0 && a.h >= 0 && b.w >= 0 && b.h >= 0
    ensures a.w + a.h < r.w + r.h && b.w + b.h < r.w + r.h
  {
  }

  /** Every node is a leaf exactly when it is small, and every internal node
      is cut into its two children. */
  ghost predicate Partition(t: Tree, m: int)
  {
    match t
    case Leaf(r, _) => Small(r, m)
    case Node(r, a, b) => !Small(r, m) && Cut(r, a.rect, b.rect, m) && Partition(a, m) && Partition(b, m)
  }

  /** `Split` partitions: the plan's leaves are exactly its small nodes and
      its internal nodes are cut into their children. */
  lemma {:induction false} SplitPlanPartitions(r: Rect, m: int, draws: nat -> int, p: nat)
    requires m >= 1 && r.w >= 0 && r.h >= 0
    ensures Partition(SplitPlan(r, m, draws, p).0, m)
    decreases r.w + r.h
  {
    if !Small(r, m) {
      var halves := CutAt(r, m, draws, p);
      CutAtCuts(r, m, draws, p);
      CutSmaller(r, halves.0, halves.1, m);
      SplitPlanPartitions(halves.0, m, draws, p + 2);
      SplitPlanPartitions(halves.1, m, draws, SplitPlan(halves.0, m, draws, p + 2).1);
    }
  }

  /** The number of draws `Split` takes to build t: two per cut. */
  function Draws(t: Tree): nat
  {
    match t
    case Leaf(_, _) => 0
    case Node(_, a, b) => 2 + Draws(a) + Draws(b)
  }

  /** t is what `Split` builds from draw p on, node by node: a small node
      is a room-less leaf; any other is cut by the draws at p and p + 1, its
      left half built from p + 2 on and its right half from the draws the
      left half leaves. */
  ghost predicate Planned(t: Tree, m: int, draws: nat -> int, p: nat)
    decreases Size(t), 1
  {
    m >= 1 && t.rect.w >= 0 && t.rect.h >= 0 &&
    match t
    case Leaf(r, room) => Small(r, m) && room == None
    case Node(r, a, b) =>
      && !Small(r, m)
      && (a.rect, b.rect) == CutAt(r, m, draws, p)
      && PlannedPair(a, b, m, draws, p + 2)
  }

  /** a is planned from draw p on and b from the draws a leaves. */
  ghost predicate PlannedPair(a: Tree, b: Tree, m: int, draws: nat -> int, p: nat)
    decreases Size(a) + Size(b), 2
  {
    Planned(a, m, draws, p) && Planned(b, m, draws, p + Draws(a))
  }

  /** The number of nodes of t. */
  function Size(t: Tree): nat
  {
    match t
    case Leaf(_, _) => 1
    case Node(_, a, b) => 1 + Size(a) + Size(b)
  }

  /** A planned tree is the plan: the node-by-node description has exactly
      one solution, `SplitPlan`, and it takes `Draws` draws. */
  lemma {:induction false} PlannedIsSplitPlan(t: Tree, m: int, draws: nat -> int, p: nat)
    requires Planned(t, m, draws, p)
    ensures SplitPlan(t.rect, m, draws, p) == (t, p + Draws(t))
  {
    if t.Node? {
      CutAtCuts(t.rect, m, draws, p);
      CutSmaller(t.rect, t.left.rect, t.right.rect, m);
      PlannedIsSplitPlan(t.left, m, draws, p + 2);
      PlannedIsSplitPlan(t.right, m, draws, p + 2 + Draws(t.left));
    }
  }

  /** Every node of t has both sides at least k. */
  ghost predicate MinDims(t: Tree, k: int)
  {
    t.rect.w >= k && t.rect.h >= k &&
    match t
    case Leaf(_, _) => true
    case Node(_, a, b) => MinDims(a, k) && MinDims(b, k)
  }

  /** When the root's sides are at least k ≤ m, so are every node's: a cut
      leaves at least m on its axis and the other axis unchanged. */
  lemma {:induction false} PartitionMinDims(t: Tree, m: int, k: int)
    requires Partition(t, m) && k <= m && t.rect.w >= k && t.rect.h >= k
    ensures MinDims(t, k)
  {
    if t.Node? {
      PartitionMinDims(t.left, m, k);
      PartitionMinDims(t.right, m, k);
    }
  }

  /** The number of leaves of t whose rectangle holds (px, py). */
  function LeavesAt(t: Tree, px: int, py: int): nat
  {
    match t
    case Leaf(r, _) => if r.Contains(px, py) then 1 else 0
    case Node(_, a, b) => LeavesAt(a, px, py) + LeavesAt(b, px, py)
  }

  /** The leaves tile the root: a cell of the root rectangle is in exactly
      one leaf, any other cell in none. */
  lemma {:induction false} LeavesTile(t: Tree, m: int, px: int, py: int)
    requires m >= 1 && Partition(t, m)
    ensures LeavesAt(t, px, py) == if t.rect.Contains(px, py) then 1 else 0
  {
    if t.Node? {
      LeavesTile(t.left, m, px, py);
      LeavesTile(t.right, m, px, py);
      CutTiles(t.rect, t.left.rect, t.right.rect, m, px, py);
    }
  }

  // ---------------------------------------------------------------------
  // Rooms
  // ---------------------------------------------------------------------

  function Min(a: int, b: int): int
  {
    if a <= b then a else b
  }

  /** Every leaf is at least 3 × 3, so that `Random.Range(3, …)` has a
      non-empty range. */
  ghost predicate RoomReady(t: Tree)
  {
    match t
    case Leaf(r, _) => r.w >= 3 && r.h >= 3
    case Node(_, a, b) => RoomReady(a) && RoomReady(b)
  }

  lemma {:induction false} MinDimsRoomReady(t: Tree)
    requires MinDims(t, 3)
    ensures RoomReady(t)
  {
    if t.Node? {
      MinDimsRoomReady(t.left);
      MinDimsRoomReady(t.right);
    }
  }

  /** The room `CreateRooms` puts in leaf r from the four draws at p. */
  function LeafRoom(r: Rect, maxRoomSize: int, draws: nat -> int, p: nat): Room
    requires r.w >= 3 && r.h >= 3 && maxRoomSize >= 3
  {
    var roomW := RangeOf(3, Min(maxRoomSize, r.w), draws(p));
    var roomH := RangeOf(3, Min(maxRoomSize, r.h), draws(p + 1));
    var roomX := r.x + RangeOf(0, r.w - roomW + 1, draws(p + 2));
    var roomY := r.y + RangeOf(0, r.h - roomH + 1, draws(p + 3));
    Room(roomX, roomY, roomW, roomH)
  }

  /** The tree after `CreateRooms`: the leaves visited left to right, four
      draws each. */
  function RoomsPlan(t: Tree, maxRoomSize: int, draws: nat -> int, p: nat): (res: (Tree, nat))
    requires RoomReady(t) && maxRoomSize >= 3
    ensures res.0.rect == t.rect && p <= res.1
    decreases Size(t), 1
  {
    match t
    case Leaf(r, _) => (Leaf(r, Some(LeafRoom(r, maxRoomSize, draws, p))), p + 4)
    case Node(r, a, b) =>
      var pair := RoomsPair(a, b, maxRoomSize, draws, p);
      (Node(r, pair.0, pair.1), pair.2)
  }

  /** `CreateRooms` on two sibling subtrees, the left one first. */
  function RoomsPair(a: Tree, b: Tree, maxRoomSize: int, draws: nat -> int, p: nat): (res: (Tree, Tree, nat))
    requires RoomReady(a) && RoomReady(b) && maxRoomSize >= 3
    ensures res.0.rect == a.rect && res.1.rect == b.rect && p <= res.2
    decreases Size(a) + Size(b), 2
  {
    var left := RoomsPlan(a, maxRoomSize, draws, p);
    var right := RoomsPlan(b, maxRoomSize, draws, left.1);
    (left.0, right.0, right.1)
  }

  /** A room of width and height in [3, min(maxRoomSize, side)) — or 3 when
      that range is empty — placed wholly inside its leaf. */
  ghost predicate RoomFits(r: Rect, room: Room, maxRoomSize: int)
  {
    && 3 <= room.width && (room.width < Min(maxRoomSize, r.w) || room.width == 3 == Min(maxRoomSize, r.w))
    && 3 <= room.height && (room.height < Min(maxRoomSize, r.h) || room.height == 3 == Min(maxRoomSize, r.h))
    && r.x <= room.x && room.x + room.width <= r.x + r.w
    && r.y <= room.y && room.y + room.height <= r.y + r.h
  }

  lemma LeafRoomFits(r: Rect, maxRoomSize: int, draws: nat -> int, p: nat)
    requires r.w >= 3 && r.h >= 3 && maxRoomSize >= 3
    ensures RoomFits(r, LeafRoom(r, maxRoomSize, draws, p), maxRoomSize)
  {
  }

  /** Every leaf has a room that fits it. */
  ghost predicate RoomsFit(t: Tree, maxRoomSize: int)
  {
    match t
    case Leaf(r, room) => room.Some? && RoomFits(r, room.value, maxRoomSize)
    case Node(_, a, b) => RoomsFit(a, maxRoomSize) && RoomsFit(b, maxRoomSize)
  }

  /** The same tree with its rooms erased. */
  function Shape(t: Tree): Tree
  {
    match t
    case Leaf(r, _) => Leaf(r, None)
    case Node(r, a, b) => Node(r, Shape(a), Shape(b))
  }

  /** `CreateRooms` keeps the partition and gives every leaf a room that
      fits it. */
  lemma {:induction false} RoomsPlanFits(t: Tree, maxRoomSize: int, draws: nat -> int, p: nat)
    requires RoomReady(t) && maxRoomSize >= 3
    ensures RoomsFit(RoomsPlan(t, maxRoomSize, draws, p).0, maxRoomSize)
    ensures Shape(RoomsPlan(t, maxRoomSize, draws, p).0) == Shape(t)
  {
    match t
    case Leaf(r, _) =>
      LeafRoomFits(r, maxRoomSize, draws, p);
    case Node(r, a, b) =>
      RoomsPlanFits(a, maxRoomSize, draws, p);
      RoomsPlanFits(b, maxRoomSize, draws, RoomsPlan(a, maxRoomSize, draws, p).1);
      assert RoomsPlan(t, maxRoomSize, draws, p).0 ==
             Node(r, RoomsPlan(a, maxRoomSize, draws, p).0, RoomsPlan(b, maxRoomSize, draws, RoomsPlan(a, maxRoomSize, draws, p).1).0);
  }

  /** A partition is a property of the shape alone. */
  lemma {:induction false} PartitionShape(t: Tree, u: Tree, m: int)
    requires Shape(t) == Shape(u) && Partition(t, m)
    ensures Partition(u, m)
  {
    if t.Node? {
      assert u.Node?;
      PartitionShape(t.left, u.left, m);
      PartitionShape(t.right, u.right, m);
    } else {
      assert u.Leaf?;
    }
  }

  /** The number of rooms of t that hold (px, py). */
  function RoomsAt(t: Tree, px: int, py: int): nat
  {
    match t
    case Leaf(_, room) => if room.Some? && room.value.Contains(px, py) then 1 else 0
    case Node(_, a, b) => RoomsAt(a, px, py) + RoomsAt(b, px, py)
  }

  /** Rooms sit inside their leaves, so rooms of distinct leaves are
      disjoint: no cell is in two rooms, and no cell outside the root is in
      any. */
  lemma {:induction false} RoomsDisjoint(t: Tree, m: int, maxRoomSize: int, px: int, py: int)
    requires m >= 1 && Partition(t, m) && RoomsFit(t, maxRoomSize)
    ensures RoomsAt(t, px, py) <= LeavesAt(t, px, py)
    ensures RoomsAt(t, px, py) <= 1 && (RoomsAt(t, px, py) == 1 ==> t.rect.Contains(px, py))
  {
    if t.Node? {
      RoomsDisjoint(t.left, m, maxRoomSize, px, py);
      RoomsDisjoint(t.right, m, maxRoomSize, px, py);
    }
    LeavesTile(t, m, px, py);
  }

  // ---------------------------------------------------------------------
  // Painting rooms
  // ---------------------------------------------------------------------

  /** g with the rooms of t painted, leaves left to right. */
  function PaintRooms(g: Grid, w: int, h: int, t: Tree): (s: Grid)
    requires Shaped(g, w, h)
    ensures Shaped(s, w, h)
    decreases Size(t), 1
  {
    match t
    case Leaf(_, room) => if room.Some? then FillRect(g, w, h, room.value.x, room.value.y, room.value.width, room.value.height) else g
    case Node(_, a, b) => PaintPair(g, w, h, a, b)
  }

  /** g with the rooms of a painted, then those of b. */
  function PaintPair(g: Grid, w: int, h: int, a: Tree, b: Tree): (s: Grid)
    requires Shaped(g, w, h)
    ensures Shaped(s, w, h)
    decreases Size(a) + Size(b), 2
  {
    PaintRooms(PaintRooms(g, w, h, a), w, h, b)
  }

  /** After painting, a cell is 1 exactly when some room holds it, and any
      other cell keeps its value. */
  lemma {:induction false} PaintRoomsCells(g: Grid, w: int, h: int, t: Tree, x: int, y: int)
    requires Shaped(g, w, h) && InBounds(x, y, w, h)
    ensures PaintRooms(g, w, h, t)[x][y] == if RoomsAt(t, x, y) > 0 then 1 else g[x][y]
    decreases t
  {
    if t.Node? {
      PaintRoomsCells(g, w, h, t.left, x, y);
      PaintRoomsCells(PaintRooms(g, w, h, t.left), w, h, t.right, x, y);
      assert PaintRooms(g, w, h, t) == PaintRooms(PaintRooms(g, w, h, t.left), w, h, t.right);
    }
  }

  // ---------------------------------------------------------------------
  // Finding a subtree's room
  // ---------------------------------------------------------------------

  /** `GetRoom` on a subtree: a leaf's room, or else the left subtree's
      room, or failing that the right subtree's. */
  function FirstRoom(t: Tree): Option<Room>
  {
    match t
    case Leaf(_, room) => room
    case Node(_, a, b) => var left := FirstRoom(a); if left.Some? then left else FirstRoom(b)
  }

  /** The leftmost leaf of t. */
  function LeftmostLeaf(t: Tree): (l: Tree)
    ensures l.Leaf?
  {
    match t
    case Leaf(_, _) => t
    case Node(_, a, _) => LeftmostLeaf(a)
  }

  /** Every leaf has a room. */
  ghost predicate HasRooms(t: Tree)
  {
    match t
    case Leaf(_, room) => room.Some?
    case Node(_, a, b) => HasRooms(a) && HasRooms(b)
  }

  /** Once every leaf has a room, `GetRoom` returns the room of the leftmost
      leaf: the fallback to the right subtree is never taken. */
  lemma {:induction false} FirstRoomIsLeftmost(t: Tree)
    requires HasRooms(t)
    ensures FirstRoom(t) == LeftmostLeaf(t).room && FirstRoom(t).Some?
  {
    if t.Node? {
      FirstRoomIsLeftmost(t.left);
    }
  }

  /** Every leaf has a room with at least one cell lying inside the w × h
      map. */
  ghost predicate Furnished(t: Tree, w: int, h: int)
  {
    match t
    case Leaf(_, room) =>
      room.Some? && 1 <= room.value.width && 1 <= room.value.height &&
      0 <= room.value.x && room.value.x + room.value.width <= w &&
      0 <= room.value.y && room.value.y + room.value.height <= h
    case Node(_, a, b) => Furnished(a, w, h) && Furnished(b, w, h)
  }

  /** r lies inside the w × h map. */
  predicate RectIn(r: Rect, w: int, h: int)
  {
    0 <= r.x && r.x + r.w <= w && 0 <= r.y && r.y + r.h <= h
  }

  /** Rooms fitted into a partition of a rectangle inside the map lie inside
      the map. */
  lemma {:induction false} FittedFurnished(t: Tree, m: int, maxRoomSize: int, w: int, h: int)
    requires m >= 1 && Partition(t, m) && RoomsFit(t, maxRoomSize) && RectIn(t.rect, w, h)
    ensures Furnished(t, w, h)
  {
    if t.Node? {
      FittedFurnished(t.left, m, maxRoomSize, w, h);
      FittedFurnished(t.right, m, maxRoomSize, w, h);
    }
  }

  /** The room `GetRoom` finds in a furnished subtree is furnished too: its
      centre is a cell of the map. */
  lemma {:induction false} FirstRoomInMap(t: Tree, w: int, h: int)
    requires Furnished(t, w, h)
    ensures FirstRoom(t).Some?
    ensures InBounds(FirstRoom(t).value.CenterX(), FirstRoom(t).value.CenterY(), w, h)
  {
    match t
    case Leaf(_, room) =>
      CenterInRoom(room.value);
    case Node(_, a, b) =>
      FirstRoomInMap(a, w, h);
  }

  // ---------------------------------------------------------------------
  // Corridors
  // ---------------------------------------------------------------------

  function Max(a: int, b: int): int
  {
    if a >= b then a else b
  }

  /** (x, y) is on the run lo ≤ i < hi of row `fixed` (horizontal) or of
      column `fixed` (vertical). */
  predicate OnRun(lo: int, hi: int, fixed: int, horizontal: bool, x: int, y: int)
  {
    if horizontal then y == fixed && lo <= x < hi else x == fixed && lo <= y < hi
  }

  /** g with every empty cell of a run turned to corridor (2). */
  function Dig(g: Grid, w: int, h: int, lo: int, hi: int, fixed: int, horizontal: bool): (s: Grid)
    requires Shaped(g, w, h)
    ensures Shaped(s, w, h)
    ensures forall x, y | InBounds(x, y, w, h) ::
              s[x][y] == if OnRun(lo, hi, fixed, horizontal, x, y) && g[x][y] == 0 then 2 else g[x][y]
  {
    seq(w, x requires 0 <= x < w =>
      seq(h, y requires 0 <= y < h => if OnRun(lo, hi, fixed, horizontal, x, y) && g[x][y] == 0 then 2 else g[x][y]))
  }

  /** The two legs of the L between the centres of a and b: along a's row
      then b's column when `horizontalFirst`, else along a's column then b's
      row. Both ends are included. */
  predicate OnL(a: Room, b: Room, horizontalFirst: bool, x: int, y: int)
  {
    var x1, y1, x2, y2 := a.CenterX(), a.CenterY(), b.CenterX(), b.CenterY();
    if horizontalFirst then
      OnRun(Min(x1, x2), Max(x1, x2) + 1, y1, true, x, y) || OnRun(Min(y1, y2), Max(y1, y2) + 1, x2, false, x, y)
    else
      OnRun(Min(y1, y2), Max(y1, y2) + 1, x1, false, x, y) || OnRun(Min(x1, x2), Max(x1, x2) + 1, y2, true, x, y)
  }

  /** `CreateLCorridor(a, b)` with the coin already drawn. */
  function LCorridor(g: Grid, w: int, h: int, a: Room, b: Room, horizontalFirst: bool): (s: Grid)
    requires Shaped(g, w, h)
    ensures Shaped(s, w, h)
  {
    var x1, y1, x2, y2 := a.CenterX(), a.CenterY(), b.CenterX(), b.CenterY();
    if horizontalFirst then
      Dig(Dig(g, w, h, Min(x1, x2), Max(x1, x2) + 1, y1, true), w, h, Min(y1, y2), Max(y1, y2) + 1, x2, false)
    else
      Dig(Dig(g, w, h, Min(y1, y2), Max(y1, y2) + 1, x1, false), w, h, Min(x1, x2), Max(x1, x2) + 1, y2, true)
  }

  /** The L corridor is its first leg dug, then its second leg. */
  lemma LCorridorLegs(g0: Grid, g1: Grid, g2: Grid, w: int, h: int, a: Room, b: Room, horizontalFirst: bool)
    requires Shaped(g0, w, h)
    requires horizontalFirst ==>
      g1 == Dig(g0, w, h, Min(a.CenterX(), b.CenterX()), Max(a.CenterX(), b.CenterX()) + 1, a.CenterY(), true) &&
      g2 == Dig(g1, w, h, Min(a.CenterY(), b.CenterY()), Max(a.CenterY(), b.CenterY()) + 1, b.CenterX(), false)
    requires !horizontalFirst ==>
      g1 == Dig(g0, w, h, Min(a.CenterY(), b.CenterY()), Max(a.CenterY(), b.CenterY()) + 1, a.CenterX(), false) &&
      g2 == Dig(g1, w, h, Min(a.CenterX(), b.CenterX()), Max(a.CenterX(), b.CenterX()) + 1, b.CenterY(), true)
    ensures g2 == LCorridor(g0, w, h, a, b, horizontalFirst)
  {
  }

  /** An L corridor turns exactly the empty cells of the L into corridor. */
  lemma LCorridorCells(g: Grid, w: int, h: int, a: Room, b: Room, horizontalFirst: bool, x: int, y: int)
    requires Shaped(g, w, h) && InBounds(x, y, w, h)
    ensures LCorridor(g, w, h, a, b, horizontalFirst)[x][y] == if OnL(a, b, horizontalFirst, x, y) && g[x][y] == 0 then 2 else g[x][y]
  {
  }

  /** g2 differs from g1 only where an empty cell became corridor. */
  ghost predicate OnlyDigs(g1: Grid, g2: Grid, w: int, h: int)
  {
    Shaped(g1, w, h) && Shaped(g2, w, h) &&
    forall x, y | InBounds(x, y, w, h) :: g2[x][y] == g1[x][y] || (g1[x][y] == 0 && g2[x][y] == 2)
  }

  lemma OnlyDigsTrans(g1: Grid, g2: Grid, g3: Grid, w: int, h: int)
    requires OnlyDigs(g1, g2, w, h) && OnlyDigs(g2, g3, w, h)
    ensures OnlyDigs(g1, g3, w, h)
  {
  }

  /** Every cell of the L between a and b is in the map and not empty. */
  ghost predicate LOpen(g: Grid, w: int, h: int, a: Room, b: Room, horizontalFirst: bool)
  {
    && Shaped(g, w, h)
    && InBounds(a.CenterX(), a.CenterY(), w, h) && InBounds(b.CenterX(), b.CenterY(), w, h)
    && forall x, y | OnL(a, b, horizontalFirst, x, y) :: InBounds(x, y, w, h) && g[x][y] != 0
  }

  /** After an L corridor between two centres in the map, the whole L is
      open, and nothing but empty cells changed. */
  lemma LCorridorOpens(g: Grid, w: int, h: int, a: Room, b: Room, horizontalFirst: bool)
    requires Shaped(g, w, h)
    requires InBounds(a.CenterX(), a.CenterY(), w, h) && InBounds(b.CenterX(), b.CenterY(), w, h)
    ensures LOpen(LCorridor(g, w, h, a, b, horizontalFirst), w, h, a, b, horizontalFirst)
    ensures OnlyDigs(g, LCorridor(g, w, h, a, b, horizontalFirst), w, h)
  {
    var s := LCorridor(g, w, h, a, b, horizontalFirst);
    forall x, y | OnL(a, b, horizontalFirst, x, y)
      ensures InBounds(x, y, w, h) && s[x][y] != 0
    {
      LCorridorCells(g, w, h, a, b, horizontalFirst, x, y);
    }
    forall x, y | InBounds(x, y, w, h)
      ensures s[x][y] == g[x][y] || (g[x][y] == 0 && s[x][y] == 2)
    {
      LCorridorCells(g, w, h, a, b, horizontalFirst, x, y);
    }
  }

  /** Opening more empty cells keeps an L open. */
  lemma LOpenKept(g1: Grid, g2: Grid, w: int, h: int, a: Room, b: Room, horizontalFirst: bool)
    requires LOpen(g1, w, h, a, b, horizontalFirst) && OnlyDigs(g1, g2, w, h)
    ensures LOpen(g2, w, h, a, b, horizontalFirst)
  {
  }

  // ---------------------------------------------------------------------
  // Connecting
  // ---------------------------------------------------------------------

  /** The grid after `ConnectRooms`, in pre-order: an internal node first
      joins its two subtrees' rooms (one coin), then connects its left and
      its right subtree. */
  function ConnectPlan(g: Grid, w: int, h: int, t: Tree, draws: nat -> int, p: nat): (res: (Grid, nat))
    requires Shaped(g, w, h) && Furnished(t, w, h)
    ensures Shaped(res.0, w, h) && p <= res.1
    decreases Size(t), 1
  {
    match t
    case Leaf(_, _) => (g, p)
    case Node(_, l, r) =>
      FirstRoomInMap(l, w, h);
      FirstRoomInMap(r, w, h);
      var g1 := LCorridor(g, w, h, FirstRoom(l).value, FirstRoom(r).value, draws(p) % 2 == 1);
      ConnectPair(g1, w, h, l, r, draws, p + 1)
  }

  /** `ConnectRooms` on two sibling subtrees, the left one first. */
  function ConnectPair(g: Grid, w: int, h: int, a: Tree, b: Tree, draws: nat -> int, p: nat): (res: (Grid, nat))
    requires Shaped(g, w, h) && Furnished(a, w, h) && Furnished(b, w, h)
    ensures Shaped(res.0, w, h) && p <= res.1
    decreases Size(a) + Size(b), 2
  {
    var left := ConnectPlan(g, w, h, a, draws, p);
    ConnectPlan(left.0, w, h, b, draws, left.1)
  }

  /** Every internal node's two rooms (as `GetRoom` finds them) are joined
      by an open L, bent one way or the other. */
  ghost predicate Joined(g: Grid, w: int, h: int, t: Tree)
  {
    match t
    case Leaf(_, _) => true
    case Node(_, l, r) =>
      && FirstRoom(l).Some? && FirstRoom(r).Some?
      && (LOpen(g, w, h, FirstRoom(l).value, FirstRoom(r).value, true) || LOpen(g, w, h, FirstRoom(l).value, FirstRoom(r).value, false))
      && Joined(g, w, h, l) && Joined(g, w, h, r)
  }

  lemma {:induction false} JoinedKept(g1: Grid, g2: Grid, w: int, h: int, t: Tree)
    requires Joined(g1, w, h, t) && OnlyDigs(g1, g2, w, h)
    ensures Joined(g2, w, h, t)
  {
    if t.Node? {
      var a, b := FirstRoom(t.left).value, FirstRoom(t.right).value;
      if LOpen(g1, w, h, a, b, true) {
        LOpenKept(g1, g2, w, h, a, b, true);
      } else {
        LOpenKept(g1, g2, w, h, a, b, false);
      }
      JoinedKept(g1, g2, w, h, t.left);
      JoinedKept(g1, g2, w, h, t.right);
    }
  }

  /** `ConnectRooms` only turns empty cells into corridor, and afterwards
      every internal node's two rooms are joined. */
  lemma {:induction false} ConnectPlanJoins(g: Grid, w: int, h: int, t: Tree, draws: nat -> int, p: nat)
    requires Shaped(g, w, h) && Furnished(t, w, h)
    ensures OnlyDigs(g, ConnectPlan(g, w, h, t, draws, p).0, w, h)
    ensures Joined(ConnectPlan(g, w, h, t, draws, p).0, w, h, t)
    decreases t
  {
    match t
    case Leaf(_, _) =>
    case Node(_, l, r) =>
      FirstRoomInMap(l, w, h);
      FirstRoomInMap(r, w, h);
      var a, b := FirstRoom(l).value, FirstRoom(r).value;
      var coin := draws(p) % 2 == 1;
      var g1 := LCorridor(g, w, h, a, b, coin);
      LCorridorOpens(g, w, h, a, b, coin);
      var left := ConnectPlan(g1, w, h, l, draws, p + 1);
      ConnectPlanJoins(g1, w, h, l, draws, p + 1);
      var g3 := ConnectPlan(left.0, w, h, r, draws, left.1).0;
      ConnectPlanJoins(left.0, w, h, r, draws, left.1);
      OnlyDigsTrans(g, g1, left.0, w, h);
      OnlyDigsTrans(g, left.0, g3, w, h);
      OnlyDigsTrans(g1, left.0, g3, w, h);
      LOpenKept(g1, g3, w, h, a, b, coin);
      JoinedKept(left.0, g3, w, h, l);
      assert ConnectPlan(g, w, h, t, draws, p).0 == g3;
  }

  /** Every leaf lies inside the w × h map. */
  ghost predicate LeavesIn(t: Tree, w: int, h: int)
  {
    match t
    case Leaf(r, _) => RectIn(r, w, h)
    case Node(_, a, b) => LeavesIn(a, w, h) && LeavesIn(b, w, h)
  }

  lemma {:induction false} PartitionLeavesIn(t: Tree, m: int, w: int, h: int)
    requires m >= 1 && Partition(t, m) && RectIn(t.rect, w, h)
    ensures LeavesIn(t, w, h)
  {
    if t.Node? {
      PartitionLeavesIn(t.left, m, w, h);
      PartitionLeavesIn(t.right, m, w, h);
    }
  }

  lemma {:induction false} FurnishedHasRooms(t: Tree, w: int, h: int)
    requires Furnished(t, w, h)
    ensures HasRooms(t)
  {
    if t.Node? {
      FurnishedHasRooms(t.left, w, h);
      FurnishedHasRooms(t.right, w, h);
    }
  }

  /** The finished map: starting from an empty map, painting the rooms and
      then only digging empty cells leaves a map whose cells are 1 exactly in
      the rooms, 2 or 0 elsewhere. */
  lemma DungeonCells(g0: Grid, g1: Grid, g2: Grid, w: int, h: int, t: Tree)
    requires Shaped(g0, w, h) && forall x, y | InBounds(x, y, w, h) :: g0[x][y] == 0
    requires g1 == PaintRooms(g0, w, h, t) && OnlyDigs(g1, g2, w, h)
    ensures forall x, y | InBounds(x, y, w, h) ::
              (g2[x][y] == 1 <==> RoomsAt(t, x, y) > 0) && (g2[x][y] == 0 || g2[x][y] == 1 || g2[x][y] == 2)
  {
    forall x, y | InBounds(x, y, w, h)
      ensures (g2[x][y] == 1 <==> RoomsAt(t, x, y) > 0) && (g2[x][y] == 0 || g2[x][y] == 1 || g2[x][y] == 2)
    {
      PaintRoomsCells(g0, w, h, t, x, y);
    }
  }

  // ---------------------------------------------------------------------
  // The whole generator on values
  // ---------------------------------------------------------------------

  /** The map as allocated: every cell empty. */
  function Empty(w: nat, h: nat): (g: Grid)
    ensures Shaped(g, w, h) && forall x, y | InBounds(x, y, w, h) :: g[x][y] == 0
  {
    seq(w, _ => seq(h, _ => 0))
  }

  /** A split of the whole map with partitions of at least 3 cells a side
      can take a room in every leaf, and every leaf lies inside the map. */
  lemma SplitReady(t: Tree, m: int, w: int, h: int)
    requires m >= 3 && w >= 3 && h >= 3 && Partition(t, m) && t.rect == Rect(0, 0, w, h)
    ensures RoomReady(t) && LeavesIn(t, w, h)
  {
    PartitionMinDims(t, m, 3);
    MinDimsRoomReady(t);
    PartitionLeavesIn(t, m, w, h);
  }

  /** Placing the rooms keeps the partition and furnishes every leaf. */
  lemma RoomsReady(t: Tree, m: int, maxRoomSize: int, w: int, h: int, draws: nat -> int, p: nat)
    requires m >= 3 && w >= 3 && h >= 3 && maxRoomSize >= 3 && Partition(t, m) && t.rect == Rect(0, 0, w, h)
    ensures RoomReady(t)
    ensures var u := RoomsPlan(t, maxRoomSize, draws, p).0;
            Partition(u, m) && RoomsFit(u, maxRoomSize) && Furnished(u, w, h)
  {
    SplitReady(t, m, w, h);
    var u := RoomsPlan(t, maxRoomSize, draws, p).0;
    RoomsPlanFits(t, maxRoomSize, draws, p);
    PartitionShape(t, u, m);
    FittedFurnished(u, m, maxRoomSize, w, h);
  }

  /** `Start` on values: split the w × h map, place the rooms, paint them on
      the empty map, connect them. The result is the tree with its rooms,
      the finished map and the number of draws used so far. */
  function Generate(w: nat, h: nat, m: int, maxRoomSize: int, draws: nat -> int, p: nat): (res: (Tree, Grid, nat))
    requires m >= 3 && maxRoomSize >= 3 && w >= 3 && h >= 3
    ensures res.0.rect == Rect(0, 0, w, h) && Shaped(res.1, w, h) && p <= res.2
  {
    var split := SplitPlan(Rect(0, 0, w, h), m, draws, p);
    SplitPlanPartitions(Rect(0, 0, w, h), m, draws, p);
    RoomsReady(split.0, m, maxRoomSize, w, h, draws, split.1);
    var rooms := RoomsPlan(split.0, maxRoomSize, draws, split.1);
    var corridors := ConnectPlan(PaintRooms(Empty(w, h), w, h, rooms.0), w, h, rooms.0, draws, rooms.1);
    (rooms.0, corridors.0, corridors.1)
  }

  /** A split tree that `Split` built over the whole map is the split plan,
      and it is ready for `CreateRooms` and then `ConnectRooms`. */
  lemma PlannedReady(t: Tree, m: int, maxRoomSize: int, w: nat, h: nat, draws: nat -> int, p: nat, q: nat)
    requires m >= 3 && maxRoomSize >= 3 && w >= 3 && h >= 3
    requires Planned(t, m, draws, p) && t.rect == Rect(0, 0, w, h) && q == p + Draws(t)
    ensures SplitPlan(Rect(0, 0, w, h), m, draws, p) == (t, q)
    ensures RoomReady(t) && LeavesIn(t, w, h)
    ensures Furnished(RoomsPlan(t, maxRoomSize, draws, q).0, w, h)
  {
    PlannedIsSplitPlan(t, m, draws, p);
    SplitPlanPartitions(t.rect, m, draws, p);
    RoomsReady(t, m, maxRoomSize, w, h, draws, q);
    SplitReady(t, m, w, h);
  }

  /** `Generate` is the three plans run one after another. */
  lemma GenerateSteps(w: nat, h: nat, m: int, maxRoomSize: int, draws: nat -> int, p: nat,
                      t1: Tree, p1: nat, t2: Tree, p2: nat, g1: Grid, g2: Grid, p3: nat)
    requires m >= 3 && maxRoomSize >= 3 && w >= 3 && h >= 3
    requires SplitPlan(Rect(0, 0, w, h), m, draws, p) == (t1, p1) && RoomReady(t1)
    requires RoomsPlan(t1, maxRoomSize, draws, p1) == (t2, p2) && g1 == PaintRooms(Empty(w, h), w, h, t2)
    requires Furnished(t2, w, h) && ConnectPlan(g1, w, h, t2, draws, p2) == (g2, p3)
    ensures Generate(w, h, m, maxRoomSize, draws, p) == (t2, g2, p3)
  {
  }

  /** What a generated dungeon is: its leaves partition the map into
      rectangles at least `m` a side; each leaf holds one room that fits it;
      no cell is in two rooms; a cell is 1 exactly when it is in a room and
      otherwise 0 or 2; and across every split an L corridor joins the first
      room of one half to the first room of the other without a wall cell. */
  lemma {:induction false} GenerateDungeon(w: nat, h: nat, m: int, maxRoomSize: int, draws: nat -> int, p: nat)
    requires m >= 3 && maxRoomSize >= 3 && w >= 3 && h >= 3
    ensures var res := Generate(w, h, m, maxRoomSize, draws, p);
            Partition(res.0, m) && RoomsFit(res.0, maxRoomSize) &&
            (forall x, y | InBounds(x, y, w, h) :: RoomsAt(res.0, x, y) <= 1) &&
            (forall x, y | InBounds(x, y, w, h) ::
               (res.1[x][y] == 1 <==> RoomsAt(res.0, x, y) > 0) &&
               (res.1[x][y] == 0 || res.1[x][y] == 1 || res.1[x][y] == 2)) &&
            Joined(res.1, w, h, res.0)
  {
    var split := SplitPlan(Rect(0, 0, w, h), m, draws, p);
    SplitPlanPartitions(Rect(0, 0, w, h), m, draws, p);
    RoomsReady(split.0, m, maxRoomSize, w, h, draws, split.1);
    var rooms := RoomsPlan(split.0, maxRoomSize, draws, split.1);
    var g1 := PaintRooms(Empty(w, h), w, h, rooms.0);
    var corridors := ConnectPlan(g1, w, h, rooms.0, draws, rooms.1);
    assert Generate(w, h, m, maxRoomSize, draws, p) == (rooms.0, corridors.0, corridors.1);
    ConnectPlanJoins(g1, w, h, rooms.0, draws, rooms.1);
    DungeonCells(Empty(w, h), g1, corridors.0, w, h, rooms.0);
    forall x, y | InBounds(x, y, w, h)
      ensures RoomsAt(rooms.0, x, y) <= 1
    {
      RoomsDisjoint(rooms.0, m, maxRoomSize, x, y);
    }
  }

  // ---------------------------------------------------------------------
  // The nodes
  // ---------------------------------------------------------------------

  /** `BSPNode`: a rectangle, its two children once split, its room once it
      is a leaf that `CreateRooms` has visited. `tree` is the value of the
      subtree rooted here and `Repr` the nodes in it. */
  class BSPNode {
    const x: int
    const y: int
    const width: int
    const height: int
    var left: BSPNode?
    var right: BSPNode?
    var room: Option<Room>
    ghost var tree: Tree
    ghost var Repr: set<BSPNode>

    /** Both children or none; an internal node has no room; the children's
        subtrees are disjoint and do not contain this node. */
    ghost predicate Valid()
      reads this, Repr
      decreases Repr
    {
      && this in Repr
      && (left == null <==> right == null)
      && (left == null ==> tree == Leaf(Rect(x, y, width, height), room))
      && (left != null ==>
            && left in Repr && right in Repr
            && left.Repr <= Repr && right.Repr <= Repr
            && this !in left.Repr && this !in right.Repr
            && left.Repr !! right.Repr
            && left.Valid() && right.Valid()
            && room == None
            && tree == Node(Rect(x, y, width, height), left.tree, right.tree))
    }

    constructor (x: int, y: int, w: int, h: int)
      ensures Valid() && fresh(Repr) && Repr == {this}
      ensures this.x == x && this.y == y && width == w && height == h
      ensures left == null && room == None && tree == Leaf(Rect(x, y, w, h), None)
    {
      this.x := x;
      this.y := y;
      width := w;
      height := h;
      left := null;
      right := null;
      room := None;
      tree := Leaf(Rect(x, y, w, h), None);
      Repr := {this};
    }

    /** `IsLeaf`: no children, which is a leaf of the tree. */
    predicate IsLeaf()
      reads this, Repr
      ensures Valid() ==> (IsLeaf() <==> tree.Leaf?)
    {
      left == null && right == null
    }
  }

  // ---------------------------------------------------------------------
  // The generator
  // ---------------------------------------------------------------------

  class BspGenerator {
    const mapWidth: int
    const mapHeight: int
    const minPartitionSize: int
    const maxRoomSize: int
    const rng: Random
    /** 0 = empty, 1 = room, 2 = corridor. */
    const mapGrid: array2<int>
    var rootNode: BSPNode?

    ghost predicate Valid()
      reads this
    {
      mapGrid.Length0 == mapWidth && mapGrid.Length1 == mapHeight
    }

    /** The generator with its map allocated empty, as `Start` allocates it. */
    constructor (mapWidth: nat, mapHeight: nat, minPartitionSize: int, maxRoomSize: int, rng: Random)
      ensures Valid() && fresh(mapGrid) && rootNode == null
      ensures this.mapWidth == mapWidth && this.mapHeight == mapHeight
      ensures this.minPartitionSize == minPartitionSize && this.maxRoomSize == maxRoomSize && this.rng == rng
      ensures forall x, y | InBounds(x, y, mapWidth, mapHeight) :: mapGrid[x, y] == 0
    {
      this.mapWidth := mapWidth;
      this.mapHeight := mapHeight;
      this.minPartitionSize := minPartitionSize;
      this.maxRoomSize := maxRoomSize;
      this.rng := rng;
      mapGrid := new int[mapWidth, mapHeight]((x, y) => 0);
      rootNode := null;
    }

    /** `Split`: a node that is not small is cut in two by a coin and a cut
        position, and both halves are split in turn. */
    method Split(node: BSPNode)
      requires node.Valid() && node.Repr == {node} && node.left == null && node.room == None
      requires minPartitionSize >= 1 && node.width >= 0 && node.height >= 0
      modifies node, rng
      ensures node.Valid() && fresh(node.Repr - {node})
      ensures node.tree.rect == Rect(node.x, node.y, node.width, node.height)
      ensures Planned(node.tree, minPartitionSize, rng.draws, old(rng.position))
      ensures rng.position == old(rng.position) + Draws(node.tree)
      decreases node.width + node.height, 0
    {
      if node.width <= minPartitionSize * 2 && node.height <= minPartitionSize * 2 {
        return;
      }
      CutNode(node);
      SplitChildren(node.left, node.right);
      Attach(node, old(rng.position));
      assert node.Repr - {node} == node.left.Repr + node.right.Repr;
    }

    /** The two recursive calls of `Split`, on two fresh leaves. */
    method SplitChildren(left: BSPNode, right: BSPNode)
      requires left.Valid() && left.Repr == {left} && left.left == null && left.room == None
      requires right.Valid() && right.Repr == {right} && right.left == null && right.room == None
      requires left != right && minPartitionSize >= 1
      requires left.width >= 0 && left.height >= 0 && right.width >= 0 && right.height >= 0
      modifies left, right, rng
      ensures left.Valid() && right.Valid() && left.Repr !! right.Repr
      ensures fresh(left.Repr - {left}) && fresh(right.Repr - {right})
      ensures left.tree.rect == Rect(left.x, left.y, left.width, left.height)
      ensures right.tree.rect == Rect(right.x, right.y, right.width, right.height)
      ensures PlannedPair(left.tree, right.tree, minPartitionSize, rng.draws, old(rng.position))
      ensures rng.position == old(rng.position) + Draws(left.tree) + Draws(right.tree)
      decreases Max(left.width + left.height, right.width + right.height), 1
    {
      Split(left);
      ghost var leftTree, leftRepr := left.tree, left.Repr;
      assert right !in leftRepr;
      Split(right);
      assert left.tree == leftTree && left.Repr == leftRepr;
    }

    /** The cut step of `Split` on a node that is not small: a coin, a cut
        position, and two fresh leaf children holding the two halves. */
    method CutNode(node: BSPNode)
      requires node.Valid() && node.left == null && node.room == None
      requires minPartitionSize >= 1 && node.width >= 0 && node.height >= 0
      requires !Small(Rect(node.x, node.y, node.width, node.height), minPartitionSize)
      modifies node, rng
      ensures node.left != null && node.right != null && fresh(node.left) && fresh(node.right)
      ensures node.room == None && node.Repr == old(node.Repr)
      ensures node.left.Valid() && node.left.Repr == {node.left} && node.left.left == null && node.left.room == None
      ensures node.right.Valid() && node.right.Repr == {node.right} && node.right.left == null && node.right.room == None
      ensures rng.position == old(rng.position) + 2
      ensures Rect(node.left.x, node.left.y, node.left.width, node.left.height) ==
              CutAt(Rect(node.x, node.y, node.width, node.height), minPartitionSize, rng.draws, old(rng.position)).0
      ensures Rect(node.right.x, node.right.y, node.right.width, node.right.height) ==
              CutAt(Rect(node.x, node.y, node.width, node.height), minPartitionSize, rng.draws, old(rng.position)).1
    {
      var splitHorizontal := rng.Coin();
      if (splitHorizontal && node.height > minPartitionSize * 2) || node.width <= minPartitionSize * 2 {
        var split := rng.Range(minPartitionSize, node.height - minPartitionSize);
        node.left := new BSPNode(node.x, node.y, node.width, split);
        node.right := new BSPNode(node.x, node.y + split, node.width, node.height - split);
      } else {
        var split := rng.Range(minPartitionSize, node.width - minPartitionSize);
        node.left := new BSPNode(node.x, node.y, split, node.height);
        node.right := new BSPNode(node.x + split, node.y, node.width - split, node.height);
      }
    }

    /** Records two split children in the node's tree and footprint. */
    method Attach(node: BSPNode, ghost p: nat)
      requires node.left != null && node.right != null && node.room == None
      requires node.left.Valid() && node.right.Valid()
      requires node !in node.left.Repr && node !in node.right.Repr && node.left.Repr !! node.right.Repr
      requires minPartitionSize >= 1 && node.width >= 0 && node.height >= 0
      requires !Small(Rect(node.x, node.y, node.width, node.height), minPartitionSize)
      requires node.left.tree.rect == Rect(node.left.x, node.left.y, node.left.width, node.left.height)
      requires node.right.tree.rect == Rect(node.right.x, node.right.y, node.right.width, node.right.height)
      requires (Rect(node.left.x, node.left.y, node.left.width, node.left.height),
                Rect(node.right.x, node.right.y, node.right.width, node.right.height)) ==
               CutAt(Rect(node.x, node.y, node.width, node.height), minPartitionSize, rng.draws, p)
      requires PlannedPair(node.left.tree, node.right.tree, minPartitionSize, rng.draws, p + 2)
      modifies node
      ensures node.Valid() && node.left == old(node.left) && node.right == old(node.right)
      ensures node.Repr == {node} + node.left.Repr + node.right.Repr
      ensures node.tree == Node(Rect(node.x, node.y, node.width, node.height), node.left.tree, node.right.tree)
      ensures Planned(node.tree, minPartitionSize, rng.draws, p)
    {
      node.tree := Node(Rect(node.x, node.y, node.width, node.height), node.left.tree, node.right.tree);
      node.Repr := {node} + node.left.Repr + node.right.Repr;
    }

    /** `CreateRooms`: every leaf gets a room from four draws, left to
        right, and the room's cells become 1. */
    method CreateRooms(node: BSPNode)
      requires Valid() && node.Valid() && maxRoomSize >= 3
      requires RoomReady(node.tree) && LeavesIn(node.tree, mapWidth, mapHeight)
      modifies node.Repr, mapGrid, rng
      ensures node.Valid() && node.Repr == old(node.Repr)
      ensures (node.tree, rng.position) == RoomsPlan(old(node.tree), maxRoomSize, rng.draws, old(rng.position))
      ensures View(mapGrid) == PaintRooms(old(View(mapGrid)), mapWidth, mapHeight, node.tree)
      decreases node.Repr, 0
    {
      if !node.IsLeaf() {
        CreateRoomsPair(node.left, node.right);
        node.tree := Node(Rect(node.x, node.y, node.width, node.height), node.left.tree, node.right.tree);
        return;
      }
      PlaceRoom(node);
    }

    /** The two recursive calls of `CreateRooms`, left subtree first. */
    method CreateRoomsPair(left: BSPNode, right: BSPNode)
      requires Valid() && left.Valid() && right.Valid() && left.Repr !! right.Repr && maxRoomSize >= 3
      requires RoomReady(left.tree) && LeavesIn(left.tree, mapWidth, mapHeight)
      requires RoomReady(right.tree) && LeavesIn(right.tree, mapWidth, mapHeight)
      modifies left.Repr, right.Repr, mapGrid, rng
      ensures left.Valid() && right.Valid() && left.Repr == old(left.Repr) && right.Repr == old(right.Repr)
      ensures (left.tree, right.tree, rng.position) ==
              RoomsPair(old(left.tree), old(right.tree), maxRoomSize, rng.draws, old(rng.position))
      ensures View(mapGrid) == PaintPair(old(View(mapGrid)), mapWidth, mapHeight, left.tree, right.tree)
      decreases left.Repr + right.Repr, 1
    {
      CreateRooms(left);
      ghost var leftTree := left.tree;
      CreateRooms(right);
      assert left.tree == leftTree;
    }

    /** The leaf branch of `CreateRooms`: width and height in
        [3, min(maxRoomSize, side)), a position inside the leaf, and the room
        written into the map. */
    method PlaceRoom(node: BSPNode)
      requires Valid() && node.Valid() && node.left == null && maxRoomSize >= 3
      requires node.width >= 3 && node.height >= 3 && RectIn(Rect(node.x, node.y, node.width, node.height), mapWidth, mapHeight)
      modifies node, mapGrid, rng
      ensures node.Valid() && node.Repr == old(node.Repr) && node.left == null
      ensures node.tree == Leaf(Rect(node.x, node.y, node.width, node.height),
                                Some(LeafRoom(Rect(node.x, node.y, node.width, node.height), maxRoomSize, rng.draws, old(rng.position))))
      ensures rng.position == old(rng.position) + 4
      ensures View(mapGrid) == FillRect(old(View(mapGrid)), mapWidth, mapHeight, node.tree.room.value.x, node.tree.room.value.y, node.tree.room.value.width, node.tree.room.value.height)
    {
      var room := DrawRoom(node.x, node.y, node.width, node.height);
      LeafRoomFits(Rect(node.x, node.y, node.width, node.height), maxRoomSize, rng.draws, old(rng.position));
      node.room := Some(room);
      node.tree := Leaf(Rect(node.x, node.y, node.width, node.height), node.room);
      FillRoom(room);
    }

    /** The four draws of a leaf's room. */
    method DrawRoom(x: int, y: int, width: int, height: int) returns (room: Room)
      requires width >= 3 && height >= 3 && maxRoomSize >= 3
      modifies rng
      ensures room == LeafRoom(Rect(x, y, width, height), maxRoomSize, rng.draws, old(rng.position))
      ensures rng.position == old(rng.position) + 4
    {
      var roomW := rng.Range(3, Min(maxRoomSize, width));
      var roomH := rng.Range(3, Min(maxRoomSize, height));
      var roomX := rng.Range(0, width - roomW + 1);
      var roomY := rng.Range(0, height - roomH + 1);
      room := Room(x + roomX, y + roomY, roomW, roomH);
    }

    /** The room's loops: every cell of the room becomes 1. */
    method FillRoom(room: Room)
      requires Valid() && 0 <= room.x && room.x + room.width <= mapWidth && 0 <= room.y && room.y + room.height <= mapHeight
      modifies mapGrid
      ensures View(mapGrid) == FillRect(old(View(mapGrid)), mapWidth, mapHeight, room.x, room.y, room.width, room.height)
    {
      ghost var g0 := View(mapGrid);
      var x := room.x;
      while x < room.x + room.width
        invariant x == room.x || room.x <= x <= room.x + room.width
        invariant forall px, py | InBounds(px, py, mapWidth, mapHeight) ::
                    mapGrid[px, py] == if room.x <= px < x && room.y <= py < room.y + room.height then 1 else g0[px][py]
      {
        var y := room.y;
        while y < room.y + room.height
          invariant y == room.y || room.y <= y <= room.y + room.height
          invariant forall px, py | InBounds(px, py, mapWidth, mapHeight) ::
                      mapGrid[px, py] == if (room.x <= px < x && room.y <= py < room.y + room.height) || (px == x && room.y <= py < y) then 1
                                         else g0[px][py]
        {
          mapGrid[x, y] := 1;
          y := y + 1;
        }
        x := x + 1;
      }
      Ext(View(mapGrid), FillRect(g0, mapWidth, mapHeight, room.x, room.y, room.width, room.height), mapWidth, mapHeight);
    }

    /** `GetRoom`: a leaf's room, or else the first room of its left
        subtree. The source falls back to the right subtree when the left one
        has no room; once every leaf has a room that never happens
        (`FirstRoomIsLeftmost`), so the fallback is not written here. */
    function GetRoom(node: BSPNode): (r: Option<Room>)
      reads node.Repr
      requires node.Valid() && HasRooms(node.tree)
      ensures r == FirstRoom(node.tree) && r == LeftmostLeaf(node.tree).room && r.Some?
      decreases node.Repr
    {
      if node.room.Some? then node.room else GetRoom(node.left)
    }

    /** `ConnectRooms`, in pre-order: an internal node joins the first rooms
        of its two subtrees with an L corridor, then connects each subtree. */
    method ConnectRooms(node: BSPNode)
      requires Valid() && node.Valid() && Furnished(node.tree, mapWidth, mapHeight)
      modifies mapGrid, rng
      ensures (View(mapGrid), rng.position) ==
              ConnectPlan(old(View(mapGrid)), mapWidth, mapHeight, node.tree, rng.draws, old(rng.position))
      decreases node.Repr, 0
    {
      if node.left == null || node.right == null {
        return;
      }
      FurnishedHasRooms(node.left.tree, mapWidth, mapHeight);
      FurnishedHasRooms(node.right.tree, mapWidth, mapHeight);
      var a := GetRoom(node.left);
      var b := GetRoom(node.right);
      FirstRoomInMap(node.left.tree, mapWidth, mapHeight);
      FirstRoomInMap(node.right.tree, mapWidth, mapHeight);
      CreateLCorridor(a.value, b.value);
      ConnectRoomsPair(node.left, node.right);
    }

    /** The two recursive calls of `ConnectRooms`, left subtree first. */
    method ConnectRoomsPair(left: BSPNode, right: BSPNode)
      requires Valid() && left.Valid() && right.Valid()
      requires Furnished(left.tree, mapWidth, mapHeight) && Furnished(right.tree, mapWidth, mapHeight)
      modifies mapGrid, rng
      ensures (View(mapGrid), rng.position) ==
              ConnectPair(old(View(mapGrid)), mapWidth, mapHeight, left.tree, right.tree, rng.draws, old(rng.position))
      decreases left.Repr + right.Repr, 1
    {
      ConnectRooms(left);
      ConnectRooms(right);
    }

    /** `CreateLCorridor(a, b)`: a coin picks the bend, then two straight
        corridors between the centres. */
    method CreateLCorridor(a: Room, b: Room)
      requires Valid()
      requires InBounds(a.CenterX(), a.CenterY(), mapWidth, mapHeight) && InBounds(b.CenterX(), b.CenterY(), mapWidth, mapHeight)
      modifies mapGrid, rng
      ensures rng.position == old(rng.position) + 1
      ensures View(mapGrid) == LCorridor(old(View(mapGrid)), mapWidth, mapHeight, a, b, rng.draws(old(rng.position)) % 2 == 1)
    {
      var x1 := a.CenterX();
      var y1 := a.CenterY();
      var x2 := b.CenterX();
      var y2 := b.CenterY();
      ghost var g0 := View(mapGrid);
      var horizontalFirst := rng.Coin();
      if horizontalFirst {
        CreateCorridor(x1, x2, y1, true);
        ghost var g1 := View(mapGrid);
        CreateCorridor(y1, y2, x2, false);
        LCorridorLegs(g0, g1, View(mapGrid), mapWidth, mapHeight, a, b, horizontalFirst);
      } else {
        CreateCorridor(y1, y2, x1, false);
        ghost var g1 := View(mapGrid);
        CreateCorridor(x1, x2, y2, true);
        LCorridorLegs(g0, g1, View(mapGrid), mapWidth, mapHeight, a, b, horizontalFirst);
      }
    }

    /** `CreateCorridor`: every empty cell from `start` to `end` inclusive,
        along row `fixedCoord` (horizontal) or column `fixedCoord`, becomes
        corridor; no other cell changes. */
    method CreateCorridor(start: int, end: int, fixedCoord: int, horizontal: bool)
      requires Valid()
      requires horizontal ==> 0 <= Min(start, end) && Max(start, end) < mapWidth && 0 <= fixedCoord < mapHeight
      requires !horizontal ==> 0 <= Min(start, end) && Max(start, end) < mapHeight && 0 <= fixedCoord < mapWidth
      modifies mapGrid
      ensures View(mapGrid) == Dig(old(View(mapGrid)), mapWidth, mapHeight, Min(start, end), Max(start, end) + 1, fixedCoord, horizontal)
    {
      ghost var g0 := View(mapGrid);
      var min := Min(start, end);
      var max := Max(start, end);
      var i := min;
      while i <= max
        invariant min <= i <= max + 1
        invariant forall px, py | InBounds(px, py, mapWidth, mapHeight) ::
                    mapGrid[px, py] == if OnRun(min, i, fixedCoord, horizontal, px, py) && g0[px][py] == 0 then 2 else g0[px][py]
      {
        var x := if horizontal then i else fixedCoord;
        var y := if horizontal then fixedCoord else i;
        if mapGrid[x, y] == 0 {
          mapGrid[x, y] := 2;
        }
        i := i + 1;
      }
      Ext(View(mapGrid), Dig(g0, mapWidth, mapHeight, min, max + 1, fixedCoord, horizontal), mapWidth, mapHeight);
    }

    /** `HasTile`: a tile was placed at (x, y). Tiles are placed on every
        room and corridor cell, so this is a non-empty cell of the map. */
    function HasTile(x: int, y: int): (r: bool)
      reads this, mapGrid
      requires Valid()
      ensures r <==> InBounds(x, y, mapWidth, mapHeight) && mapGrid[x, y] != 0
    {
      InBounds(x, y, mapWidth, mapHeight) && mapGrid[x, y] != 0
    }

    /** `Start`, on a freshly allocated map: split the whole map, place a
        room in every leaf, connect the rooms. The result is a partition of
        the map into leaves no smaller than the minimum partition size, one
        room inside each leaf, room cells exactly where some room lies and
        nowhere two rooms overlapping, corridor cells only where a corridor
        was dug, and an open L corridor between the first rooms of the two
        halves of every split. */
    method Start()
      requires Valid() && minPartitionSize >= 3 && maxRoomSize >= 3 && mapWidth >= 3 && mapHeight >= 3
      requires forall x, y | InBounds(x, y, mapWidth, mapHeight) :: mapGrid[x, y] == 0
      modifies this, mapGrid, rng
      ensures Valid() && rootNode != null && rootNode.Valid() && fresh(rootNode.Repr)
      ensures (rootNode.tree, View(mapGrid), rng.position) ==
              Generate(mapWidth, mapHeight, minPartitionSize, maxRoomSize, rng.draws, old(rng.position))
    {
      var root := new BSPNode(0, 0, mapWidth, mapHeight);
      rootNode := root;
      ghost var g0 := View(mapGrid);
      Ext(g0, Empty(mapWidth, mapHeight), mapWidth, mapHeight);

      ghost var p0 := rng.position;
      Split(root);
      ghost var t1, p1 := root.tree, rng.position;
      PlannedReady(t1, minPartitionSize, maxRoomSize, mapWidth, mapHeight, rng.draws, p0, p1);

      CreateRooms(root);
      ghost var t2, p2, g1 := root.tree, rng.position, View(mapGrid);
      assert (t2, p2) == RoomsPlan(t1, maxRoomSize, rng.draws, p1);
      assert Furnished(t2, mapWidth, mapHeight);

      ConnectRooms(root);
      assert root.Valid() && root.tree == t2;
      GenerateSteps(mapWidth, mapHeight, minPartitionSize, maxRoomSize, rng.draws, p0,
                    t1, p1, t2, p2, g1, View(mapGrid), rng.position);
    }
  }
}
