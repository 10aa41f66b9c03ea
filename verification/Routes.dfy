// Where the robot may go and what it costs: the map, moveCost, and the routes that AStar of
// Lagerrobot/communication/nav_algorithm.py searches for.
module Routes {
  import opened Prelude

  datatype Coord = Coord(x: int, y: int)

  /** Rows of cells; 0 is closed.  A coordinate (x, y) is looked up as map[y][x]. */
  type Grid = seq<seq<int>>

  /** A Python list index: negative ones count from the end, others outside raise IndexError. */
  function Lookup<T>(s: seq<T>, i: int): Option<T> {
    if 0 <= i < |s| then Some(s[i]) else if -|s| <= i < 0 then Some(s[|s| + i]) else None
  }

  function Cell(map_: Grid, c: Coord): Option<int> {
    var row := Lookup(map_, c.y);
    if row == None then None else Lookup(row.value, c.x)
  }

  predicate Open(map_: Grid, c: Coord) {
    Cell(map_, c).Some? && Cell(map_, c).value != 0
  }

  // ----- Moves -----

  const DIRECTIONS := [1, 2, -1, -2] // up, right, down, left

  function MoveCost(currentDir: int, newDir: int): (c: int)
    ensures c > 0
  {
    if currentDir == newDir then 10 else if currentDir == -newDir then 90 else 50
  }

  /** The cell one step away in absolute direction d. */
  function Toward(c: Coord, d: int): Coord {
    match d
    case 1 => c.(y := c.y - 1)
    case 2 => c.(x := c.x + 1)
    case -1 => c.(y := c.y + 1)
    case _ => c.(x := c.x - 1)
  }

  function DirIndex(d: int): (i: nat)
    requires d in DIRECTIONS
    ensures i < 4 && DIRECTIONS[i] == d
  {
    if d == 1 then 0 else if d == 2 then 1 else if d == -1 then 2 else 3
  }

  /** Absolute direction d as seen by a robot that faces `facing`. */
  function Turn(facing: int, d: int): int
    requires facing in DIRECTIONS && d in DIRECTIONS
  {
    DIRECTIONS[(DirIndex(d) - DirIndex(facing)) % 4]
  }

  /** Straight ahead is 1, back is -1, and 2 is a quarter turn clockwise where y grows downwards. */
  lemma TurnIsRelative(facing: int, d: int, c: Coord)
    requires facing in DIRECTIONS && d in DIRECTIONS
    ensures Turn(facing, d) == 1 <==> Toward(c, d) == Toward(c, facing)
    ensures Turn(facing, d) == -1 <==> Toward(Toward(c, facing), d) == c
    ensures Turn(facing, d) == 2 <==>
            Toward(c, d) == Coord(c.x - (Toward(c, facing).y - c.y), c.y + (Toward(c, facing).x - c.x))
  {
    assert forall k | 0 <= k < 4 :: DIRECTIONS[k] == [1, 2, -1, -2][k];
  }

  /** All four cells can be looked up. */
  predicate Inside(map_: Grid, c: Coord) {
    forall d | d in DIRECTIONS :: Cell(map_, Toward(c, d)).Some?
  }

  // ----- Routes -----

  datatype Task = Task(map_: Grid, start: Coord, direction: int, straight: bool)

  datatype Route = Route(path: seq<Coord>, dirs: seq<int>)

  /** Step j of the route: to an open neighbour in the direction noted, no revisit except of
      the start, and straight ahead if it is a first step that must be. */
  predicate Hop(t: Task, o: Route, j: nat)
    requires 0 < j < |o.path| == |o.dirs|
  {
    && o.dirs[j] in DIRECTIONS && o.path[j] == Toward(o.path[j - 1], o.dirs[j])
    && Open(t.map_, o.path[j])
    && (o.path[j] in o.path[..j] ==> o.path[j] == o.path[0])
    && (j == 1 && t.straight ==> o.dirs[1] == o.dirs[0])
  }

  ghost predicate Admissible(t: Task, o: Route) {
    && 0 < |o.path| == |o.dirs| && o.path[0] == t.start && o.dirs[0] == t.direction
    && forall j {:trigger Hop(t, o, j)} | 0 < j < |o.path| :: Hop(t, o, j)
  }

  ghost predicate Reaches(t: Task, stop: Coord, o: Route) {
    Admissible(t, o) && o.path[|o.path| - 1] == stop
  }

  /** The sum of moveCost along a route. */
  function Cost(dirs: seq<int>): (c: nat) {
    if |dirs| <= 1 then 0 else Cost(dirs[..|dirs| - 1]) + MoveCost(dirs[|dirs| - 2], dirs[|dirs| - 1])
  }

  /** The quarter turns along a route; a half turn is two of them. */
  function QuarterTurns(dirs: seq<int>): nat
    requires forall d | d in dirs :: d in DIRECTIONS
  {
    if |dirs| <= 1 then 0
    else
      var k := (DirIndex(dirs[|dirs| - 1]) - DirIndex(dirs[|dirs| - 2])) % 4;
      QuarterTurns(dirs[..|dirs| - 1]) + if k == 3 then 1 else k
  }

  /** A move costs 10, and a quarter turn 40 more. */
  lemma {:induction false} CostOfTurns(dirs: seq<int>)
    requires dirs != [] && forall d | d in dirs :: d in DIRECTIONS
    ensures Cost(dirs) == 10 * (|dirs| - 1) + 40 * QuarterTurns(dirs)
  {
    if |dirs| > 1 {
      CostOfTurns(dirs[..|dirs| - 1]);
    }
  }

  lemma {:induction false} PrefixCost(a: seq<int>, b: seq<int>)
    requires a <= b
    ensures Cost(a) <= Cost(b)
  {
    if |a| < |b| {
      var c := b[..|b| - 1];
      assert a <= c;
      PrefixCost(a, c);
    } else {
      assert a == b;
    }
  }

  /** The cost of a joined route is the sum of the costs of its parts. */
  lemma {:induction false} JoinCost(a: seq<int>, b: seq<int>)
    requires a != [] && b != [] && a[|a| - 1] == b[0]
    ensures Cost(a + b[1..]) == Cost(a) + Cost(b)
    decreases |b|
  {
    var o := a + b[1..];
    if |b| == 1 {
      assert o == a;
    } else {
      var c := b[..|b| - 1];
      JoinCost(a, c);
      assert o[..|o| - 1] == a + c[1..];
      assert o[|o| - 2] == b[|b| - 2];
    }
  }

  /** No admissible route to stop costs less than o. */
  ghost predicate NotWorse(t: Task, stop: Coord, o: Route) {
    forall p: Route | Reaches(t, stop, p) :: Cost(o.dirs) <= Cost(p.dirs)
  }

  ghost predicate Least(t: Task, stop: Coord, o: Route) { Reaches(t, stop, o) && NotWorse(t, stop, o) }

  /** An admissible route to another cell that costs no more than those to stop. */
  ghost predicate Rival(t: Task, stop: Coord, o: Route) {
    Admissible(t, o) && o.path[|o.path| - 1] != stop && NotWorse(t, stop, o)
  }

  ghost predicate OutsideRival(t: Task, stop: Coord, o: Route) {
    Rival(t, stop, o) && !Inside(t.map_, o.path[|o.path| - 1])
  }

  ghost predicate AllRivals(t: Task, stop: Coord, seen: set<Route>) { forall o | o in seen :: Rival(t, stop, o) }

  /** No admissible route that costs less ends where a lookup fails. */
  ghost predicate InsideBelow(t: Task, cost: int) {
    forall o: Route | Admissible(t, o) && Cost(o.dirs) < cost :: Inside(t.map_, o.path[|o.path| - 1])
  }

  /** There are more routes to look at before those to stop than AStar looks at. */
  ghost predicate Crowded(t: Task, stop: Coord) {
    exists seen: set<Route> :: |seen| == 10000 && AllRivals(t, stop, seen)
  }

  /** The four cells around every cell but the last can be looked up. */
  predicate Explored(map_: Grid, path: seq<Coord>) {
    forall i | 0 <= i < |path| - 1 :: Inside(map_, path[i])
  }
}
