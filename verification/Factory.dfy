// Whether findPath of Lagerrobot/communication/nav_algorithm.py finds the best path, as it says,
// on the map and with the stop position of its module.
module Factory {
  import opened Prelude
  import opened PathSearch
  import opened RouteCount
  import opened RoutePlan
  import opened Routes

  const WALL := [0, 0, 0, 0, 0, 0, 0, 0, 0, 0, 0, 0, 0]
  const AISLE := [0, 2, 1, 2, 1, 2, 1, 2, 1, 2, 1, 2, 0]
  const SHELVES := [0, 1, 0, 1, 0, 1, 0, 1, 0, 1, 0, 1, 0]
  const GATE := [0, 0, 0, 0, 0, 0, 0, 0, 0, 0, 0, 2, 0]
  const FACTORY: Grid := [WALL, AISLE, SHELVES, AISLE, SHELVES, AISLE, SHELVES, AISLE, SHELVES, AISLE, SHELVES, AISLE,
                          GATE, WALL]

  /** The map after remove_position has closed some cells. */
  ghost predicate IsFactory(map_: Grid) {
    && |map_| == |FACTORY|
    && forall y | 0 <= y < |map_| ::
         |map_[y]| == |FACTORY[y]| && forall x | 0 <= x < |map_[y]| :: map_[y][x] == 0 || map_[y][x] == FACTORY[y][x]
  }

  /** For n items: whenever the stops can be served in this order by admissible legs at all, least
      legs serve them, and no round of admissible legs takes less time. */
  ghost predicate LeastLegsAreBest(n: nat) {
    forall trip: Trip, stops, o, time |
      IsFactory(trip.map_) && trip.dir in DIRECTIONS && |trip.items| == n && IsOrder(trip.items, stops)
      && ByLegs(trip, stops, false, o, time) ::
      && (exists g, s :: ByLegs(trip, stops, true, g, s))
      && forall g, s | ByLegs(trip, stops, true, g, s) :: s <= time
  }

  // ----- One leg -----

  lemma {:induction false} LeastExists(t: Task, stop: Coord, o: Route) returns (g: Route)
    requires Reaches(t, stop, o)
    ensures Least(t, stop, g)
    decreases Cost(o.dirs)
  {
    hide Reaches, Cost;
    if NotWorse(t, stop, o) {
      g := o;
    } else {
      var p :| Reaches(t, stop, p) && Cost(p.dirs) < Cost(o.dirs);
      g := LeastExists(t, stop, p);
    }
  }

  /** One leg is all of its round. */
  lemma OneLeg(trip: Trip, stop: Coord, least: bool, o: Route, time: int) returns (b: Route)
    requires ByLegs(trip, [stop], least, o, time)
    ensures b.path != [] && b.dirs != [] && time == Cost(b.dirs)
    ensures AddsLeg(trip, Route([trip.start], [trip.dir]), stop, b, least, o)
  {
    hide Cost;
    var a, s, c := LastLeg(trip, [stop], least, o, time);
    assert [stop][..0] == [];
    assert ByLegs(trip, [], least, a, s);
    b := c;
  }

  lemma BestForOneStop(trip: Trip, stop: Coord, o: Route, time: int)
    requires trip.dir in DIRECTIONS && ByLegs(trip, [stop], false, o, time)
    ensures exists g, s :: ByLegs(trip, [stop], true, g, s)
    ensures forall g, s | ByLegs(trip, [stop], true, g, s) :: s <= time
  {
    var first := Route([trip.start], [trip.dir]);
    assert ByLegs(trip, [], true, first, 0);
    hide ByLegs, Reaches, NotWorse, Cost;
    assert [] + [stop] == [stop];
    var b := OneLeg(trip, stop, false, o, time);
    var c := LeastExists(LegTask(trip, trip.start, trip.dir), stop, b);
    LeastNotEmpty(LegTask(trip, trip.start, trip.dir), stop, c);
    assert AddsLeg(trip, first, stop, c, true, Join(first, c));
    MoreLegs(trip, [], true, first, 0, stop, c, Join(first, c));
    forall g, s | ByLegs(trip, [stop], true, g, s)
      ensures s <= time
    {
      var d := OneLeg(trip, stop, true, g, s);
      LeastIsLeast(LegTask(trip, trip.start, trip.dir), stop, d, b);
    }
  }

  lemma LeastNotEmpty(t: Task, stop: Coord, c: Route)
    requires Least(t, stop, c)
    ensures c.path != [] && c.dirs != []
  {
  }

  lemma LeastIsLeast(t: Task, stop: Coord, c: Route, b: Route)
    requires Least(t, stop, c) && Reaches(t, stop, b)
    ensures Cost(c.dirs) <= Cost(b.dirs)
  {
  }

  // ----- Stops that are near -----

  /** Within the walls, where all four cells around can be looked up. */
  predicate Within(c: Coord) { 1 <= c.x <= 11 && 1 <= c.y <= 12 }

  lemma WithinIsInside(map_: Grid, c: Coord)
    requires IsFactory(map_) && Within(c)
    ensures Inside(map_, c)
  {
    forall x, y | 0 <= x <= 12 && 0 <= y <= 13
      ensures Cell(map_, Coord(x, y)).Some?
    {
      assert |FACTORY[y]| == 13 && |map_[y]| == 13;
    }
  }

  /** The walls are closed. */
  lemma StepStaysWithin(map_: Grid, c: Coord, d: int)
    requires IsFactory(map_) && Within(c) && d in DIRECTIONS && Open(map_, Toward(c, d))
    ensures Within(Toward(c, d))
  {
    var n := Toward(c, d);
    assert |map_[n.y]| == 13 && FACTORY[n.y][0] == FACTORY[n.y][12] == 0;
    assert FACTORY[0] == FACTORY[13] == WALL;
  }

  lemma {:induction false} StaysWithin(t: Task, o: Route, n: nat)
    requires IsFactory(t.map_) && Within(t.start) && Admissible(t, o) && n < |o.path|
    ensures Within(o.path[n])
  {
    hide IsFactory, Within, Open;
    if n > 0 {
      StaysWithin(t, o, n - 1);
      assert Hop(t, o, n);
      StepStaysWithin(t.map_, o.path[n - 1], o.dirs[n]);
    }
  }

  /** On the module's map no leg fails to a stop that a route of cost 230 or less leads to. */
  lemma NearStopIsFound(t: Task, stop: Coord, o: Route)
    requires IsFactory(t.map_) && Within(t.start) && Reaches(t, stop, o) && Cost(o.dirs) <= 230
    ensures !TaskFails(t, stop)
  {
    hide IsFactory, Within, Cost, Crowded, Inside;
    NotCrowded(t, stop, o);
    forall p | OutsideRival(t, stop, p)
      ensures false
    {
      StaysWithin(t, p, |p.path| - 1);
      WithinIsInside(t.map_, p.path[|p.path| - 1]);
    }
  }

  // ----- Rounds -----

  /** When no round of least legs can go on to the stop there is none for one stop more. */
  lemma StuckAfter(trip: Trip, stops: seq<Coord>, stop: Coord)
    requires forall a, s | ByLegs(trip, stops, true, a, s) ::
               a.path != [] && a.dirs != [] && forall b :: !Reaches(LegTask(trip, End(a), Facing(a)), stop, b)
    ensures forall o, time :: !ByLegs(trip, stops + [stop], true, o, time)
  {
    hide ByLegs, Reaches, Least, LegTask;
    forall o, time
      ensures !ByLegs(trip, stops + [stop], true, o, time)
    {
      assert (stops + [stop])[..|stops|] == stops;
      if ByLegs(trip, stops + [stop], true, o, time) {
        var a, s, b := LastLeg(trip, stops + [stop], true, o, time);
        assert false;
      }
    }
  }

  lemma AdmissibleNext(trip: Trip, stops: seq<Coord>, a: Route, s: int, stop: Coord, b: Route) returns (o: Route)
    requires ByLegs(trip, stops, false, a, s) && a.path != [] && a.dirs != []
    requires Reaches(LegTask(trip, End(a), Facing(a)), stop, b)
    ensures ByLegs(trip, stops + [stop], false, o, s + Cost(b.dirs))
    ensures o.path != [] && o.dirs != [] && End(o) == stop && Facing(o) == if |b.dirs| > 1 then Facing(b) else Facing(a)
  {
    hide ByLegs;
    o := Join(a, b);
    MoreLegs(trip, stops, false, a, s, stop, b, o);
  }

  // ----- Straight stretches -----

  /** The cell i steps away in direction d. */
  function Ahead(c: Coord, d: int, i: nat): Coord {
    match d
    case 1 => c.(y := c.y - i)
    case 2 => c.(x := c.x + i)
    case -1 => c.(y := c.y + i)
    case _ => c.(x := c.x - i)
  }

  /** Route a and n steps in direction d. */
  function Straight(a: Route, d: int, n: nat): Route
    requires a.path != []
  {
    if n == 0 then a
    else Route(Straight(a, d, n - 1).path + [Ahead(End(a), d, n)], Straight(a, d, n - 1).dirs + [d])
  }

  /** The next n cells in direction d are open and new. */
  ghost predicate Clear(t: Task, a: Route, d: int, n: nat)
    requires a.path != []
  {
    forall i {:trigger Ahead(End(a), d, i)} | 1 <= i <= n ::
      Open(t.map_, Ahead(End(a), d, i)) && Ahead(End(a), d, i) !in a.path
  }

  lemma {:induction false} StraightCells(a: Route, d: int, n: nat)
    requires a.path != [] && a.dirs != [] && d in DIRECTIONS
    ensures var o := Straight(a, d, n);
            && o.path != [] && End(o) == Ahead(End(a), d, n) && |o.path| == |a.path| + n
            && o.dirs != [] && Facing(o) == (if n == 0 then Facing(a) else d)
            && forall c | c in o.path :: c in a.path || exists i {:trigger Ahead(End(a), d, i)} ::
                 1 <= i <= n && c == Ahead(End(a), d, i)
  {
    if n > 0 { StraightCells(a, d, n - 1); }
  }

  lemma {:induction false} StraightCost(a: Route, d: int, n: nat)
    requires a.path != [] && a.dirs != [] && d in DIRECTIONS
    ensures Cost(Straight(a, d, n).dirs) == Cost(a.dirs) + if n == 0 then 0 else MoveCost(Facing(a), d) + 10 * (n - 1)
  {
    hide Cost, Ahead;
    if n > 0 {
      StraightCost(a, d, n - 1);
      StraightCells(a, d, n - 1);
      CostMore(Straight(a, d, n - 1).dirs, d);
    }
  }

  lemma CostMore(dirs: seq<int>, d: int)
    requires dirs != []
    ensures Cost(dirs + [d]) == Cost(dirs) + MoveCost(dirs[|dirs| - 1], d)
  {
    assert (dirs + [d])[..|dirs|] == dirs;
  }

  lemma {:induction false} StraightAdmissible(t: Task, a: Route, d: int, n: nat)
    requires Admissible(t, a) && d in DIRECTIONS && Clear(t, a, d, n)
    requires |a.path| == 1 && t.straight ==> d == a.dirs[0]
    ensures Admissible(t, Straight(a, d, n))
  {
    hide Open, Clear, Admissible, Ahead, Toward;
    if n > 0 {
      AdmissibleNotEmpty(t, a);
      ClearLess(t, a, d, n);
      StraightAdmissible(t, a, d, n - 1);
      StraightCells(a, d, n - 1);
      var o := Straight(a, d, n - 1);
      AdmissibleNotEmpty(t, o);
      NextAhead(End(a), d, n);
      ExtendRoute(t, o, Neighbour(Ahead(End(a), d, n), d));
    }
  }

  lemma AdmissibleNotEmpty(t: Task, a: Route)
    requires Admissible(t, a)
    ensures 0 < |a.path| == |a.dirs| && a.dirs[0] == t.direction
  {
  }

  lemma ClearLess(t: Task, a: Route, d: int, n: nat)
    requires a.path != [] && n > 0 && Clear(t, a, d, n)
    ensures Clear(t, a, d, n - 1)
    ensures Open(t.map_, Ahead(End(a), d, n)) && Ahead(End(a), d, n) !in a.path
  {
  }

  lemma NextAhead(c: Coord, d: int, n: nat)
    requires d in DIRECTIONS && n > 0
    ensures Ahead(c, d, n) == Toward(Ahead(c, d, n - 1), d)
    ensures forall i {:trigger Ahead(c, d, i)} | 0 <= i < n :: Ahead(c, d, i) != Ahead(c, d, n)
  {
  }

  /** The route goes on straight. */
  lemma Go(t: Task, a: Route, d: int, n: nat) returns (o: Route)
    requires Admissible(t, a) && d in DIRECTIONS && Clear(t, a, d, n) && n > 0
    requires |a.path| == 1 && t.straight ==> d == a.dirs[0]
    ensures a.path != [] && a.dirs != []
    ensures Admissible(t, o) && o.path != [] && o.dirs != [] && |o.path| == |a.path| + n
    ensures End(o) == Ahead(End(a), d, n) && Facing(o) == d
    ensures forall c | c in o.path :: c in a.path || exists i {:trigger Ahead(End(a), d, i)} ::
              1 <= i <= n && c == Ahead(End(a), d, i)
    ensures Cost(o.dirs) == Cost(a.dirs) + MoveCost(Facing(a), d) + 10 * (n - 1)
  {
    hide Clear, Admissible, Straight, Cost;
    AdmissibleNotEmpty(t, a);
    StraightAdmissible(t, a, d, n);
    StraightCells(a, d, n);
    StraightCost(a, d, n);
    o := Straight(a, d, n);
  }

  // ----- A pickup point on the left wall -----

  const GATEWAY := Coord(11, 12) // START_POSITION
  const PICKUP := Coord(1, 9)

  function Copies(n: nat): (s: seq<Coord>)
    ensures |s| == n
  {
    if n == 0 then [] else Copies(n - 1) + [PICKUP]
  }

  /** The robot starts at the gate facing up, with n items to pick up at the same place. */
  function WallTrip(n: nat): Trip { Trip(FACTORY, Copies(n), GATEWAY, 1) }

  lemma PickupIsItem(n: nat)
    requires n > 0
    ensures PICKUP in Copies(n)
  {
    assert Copies(n)[n - 1] == PICKUP;
  }

  lemma OpenLines()
    ensures forall x | 1 <= x <= 11 ::
              Open(FACTORY, Coord(x, 7)) && Open(FACTORY, Coord(x, 9)) && Open(FACTORY, Coord(x, 11))
    ensures forall y | 1 <= y <= 12 :: Open(FACTORY, Coord(11, y))
    ensures forall y | 1 <= y <= 11 :: Open(FACTORY, Coord(1, y))
    ensures !Open(FACTORY, Coord(0, 9))
  {
    assert FACTORY[7] == FACTORY[9] == FACTORY[11] == AISLE;
    assert forall x | 1 <= x <= 11 :: AISLE[x] != 0;
    forall y | 1 <= y <= 11
      ensures FACTORY[y] == AISLE || FACTORY[y] == SHELVES
    {
    }
    assert FACTORY[12] == GATE && GATE[11] == 2 && AISLE[1] == 2 && AISLE[11] == 2;
    assert SHELVES[1] == 1 && SHELVES[11] == 1 && AISLE[0] == 0;
  }

  // ----- The least leg to it -----

  /** What the turns up to now have cost at least, from the gate facing up: one to face left, and
      another one to face elsewhere left of the gate. */
  function TurnCost(at: Coord, facing: int): nat {
    if facing == -2 then 40 else if at.x < 11 then 80 else 0
  }

  lemma {:induction false} CostFromGate(t: Task, o: Route, n: nat)
    requires Admissible(t, o) && t.start == GATEWAY && t.direction == 1 && 0 < n <= |o.path|
    ensures o.dirs[n - 1] in DIRECTIONS
    ensures var c := o.path[n - 1];
            Cost(o.dirs[..n]) >= 10 * (11 - c.x) + 10 * (12 - c.y) + TurnCost(c, o.dirs[n - 1])
  {
    if n > 1 {
      CostFromGate(t, o, n - 1);
      assert Hop(t, o, n - 1);
      assert o.dirs[..n][..n - 1] == o.dirs[..n - 1];
      assert Cost(o.dirs[..n]) == Cost(o.dirs[..n - 1]) + MoveCost(o.dirs[n - 2], o.dirs[n - 1]);
      hide Cost, Open;
    }
  }

  /** Three cells up and ten to the left. */
  lemma ShortLeg(t: Task) returns (o: Route)
    requires t == Task(FACTORY, GATEWAY, 1, false)
    ensures Reaches(t, PICKUP, o) && Cost(o.dirs) == 170
  {
    var a := Route([GATEWAY], [1]);
    assert Cost(a.dirs) == 0;
    hide Open, Straight, Cost;
    OpenLines();
    var b := Go(t, a, 1, 3);
    o := Go(t, b, -2, 10);
  }

  /** So a least leg arrives facing the wall. */
  lemma LeastFacesWall(t: Task, b: Route)
    requires t == Task(FACTORY, GATEWAY, 1, false) && Least(t, PICKUP, b)
    ensures b.path != [] && b.dirs != [] && End(b) == PICKUP && Facing(b) == -2
  {
    hide Cost, NotWorse, Hop;
    var o := ShortLeg(t);
    LeastIsLeast(t, PICKUP, b, o);
    CostFromGate(t, b, |b.path|);
    assert b.dirs[..|b.path|] == b.dirs;
  }

  /** Nothing is nearer than where the robot is. */
  lemma LeastStays(t: Task, b: Route)
    requires t.start == PICKUP && Least(t, PICKUP, b)
    ensures |b.path| == |b.dirs| == 1
  {
    var stay := Route([PICKUP], [t.direction]);
    assert Reaches(t, PICKUP, stay) && Cost(stay.dirs) == 0;
    LeastIsLeast(t, PICKUP, b, stay);
  }

  lemma FirstFacesWall(trip: Trip, o: Route, time: int)
    requires trip.map_ == FACTORY && trip.start == GATEWAY && trip.dir == 1 && ByLegs(trip, [PICKUP], true, o, time)
    ensures o.path != [] && o.dirs != [] && End(o) == PICKUP && Facing(o) == -2
  {
    hide ByLegs, Least, Reaches, Cost;
    var b := OneLeg(trip, PICKUP, true, o, time);
    LegShape(LegTask(trip, GATEWAY, 1), PICKUP, b);
    LeastFacesWall(LegTask(trip, GATEWAY, 1), b);
  }

  lemma {:induction false} FacesWall(trip: Trip, n: nat)
    requires trip.map_ == FACTORY && trip.start == GATEWAY && trip.dir == 1 && n > 0
    ensures forall a, s | ByLegs(trip, Copies(n), true, a, s) ::
              a.path != [] && a.dirs != [] && End(a) == PICKUP && Facing(a) == -2
  {
    hide ByLegs, Least, Reaches, Cost;
    if n > 1 { FacesWall(trip, n - 1); }
    forall a, s | ByLegs(trip, Copies(n), true, a, s)
      ensures a.path != [] && a.dirs != [] && End(a) == PICKUP && Facing(a) == -2
    {
      if n == 1 {
        assert Copies(1) == Copies(0) + [PICKUP] == [PICKUP];
        FirstFacesWall(trip, a, s);
      } else {
        var c, r, b := LastLeg(trip, Copies(n), true, a, s);
        assert Copies(n)[..n - 1] == Copies(n - 1) && Copies(n)[n - 1] == PICKUP;
        LeastStays(LegTask(trip, PICKUP, -2), b);
      }
    }
  }

  lemma WallBlocks(t: Task, b: Route)
    requires t == Task(FACTORY, PICKUP, -2, true)
    ensures !Reaches(t, STOP_POSITION, b)
  {
    OpenLines();
    hide Open;
    assert Admissible(t, b) && |b.path| > 1 ==> Hop(t, b, 1);
  }

  /** A robot that faces the wall cannot leave the pickup point. */
  lemma NoLeastRound(n: nat)
    requires n > 0
    ensures forall o, time :: !ByLegs(WallTrip(n), Copies(n) + [STOP_POSITION], true, o, time)
  {
    hide ByLegs, Reaches;
    FacesWall(WallTrip(n), n);
    PickupIsItem(n);
    forall a, s | ByLegs(WallTrip(n), Copies(n), true, a, s)
      ensures a.path != [] && a.dirs != []
      ensures forall b :: !Reaches(LegTask(WallTrip(n), End(a), Facing(a)), STOP_POSITION, b)
    {
      forall b { WallBlocks(Task(FACTORY, PICKUP, -2, true), b); }
    }
    StuckAfter(WallTrip(n), Copies(n), STOP_POSITION);
  }

  // ----- The way round -----

  /** One cell up, ten to the left, and two up. */
  lemma UpwardLeg(t: Task) returns (o: Route)
    requires t == Task(FACTORY, GATEWAY, 1, false)
    ensures Reaches(t, PICKUP, o) && o.path != [] && |o.dirs| > 1 && Facing(o) == 1
  {
    var a := Route([GATEWAY], [1]);
    hide Open, Straight, Cost;
    OpenLines();
    var b := Go(t, a, 1, 1);
    var c := Go(t, b, -2, 10);
    o := Go(t, c, 1, 2);
  }

  /** Two cells up, ten to the right, and five down. */
  lemma HomeLeg(t: Task) returns (o: Route)
    requires t == Task(FACTORY, PICKUP, 1, true)
    ensures Reaches(t, STOP_POSITION, o)
  {
    var a := Route([PICKUP], [1]);
    hide Open, Straight, Cost;
    OpenLines();
    var b := Go(t, a, 1, 2);
    var c := Go(t, b, 2, 10);
    o := Go(t, c, -1, 5);
  }

  lemma Stay(t: Task)
    requires t.start == PICKUP
    ensures Reaches(t, PICKUP, Route([PICKUP], [t.direction]))
  {
  }

  lemma NoRoundYet(trip: Trip)
    ensures ByLegs(trip, Copies(0), false, Route([trip.start], [trip.dir]), 0)
  {
  }

  lemma FirstPickup(trip: Trip) returns (o: Route, time: int)
    requires trip.map_ == FACTORY && trip.start == GATEWAY && trip.dir == 1
    ensures ByLegs(trip, Copies(0) + [PICKUP], false, o, time)
    ensures o.path != [] && o.dirs != [] && End(o) == PICKUP && Facing(o) == 1
  {
    hide ByLegs, Reaches, Cost, Copies;
    NoRoundYet(trip);
    var b := UpwardLeg(Task(FACTORY, GATEWAY, 1, false));
    o := AdmissibleNext(trip, Copies(0), Route([GATEWAY], [1]), 0, PICKUP, b);
    time := 0 + Cost(b.dirs);
  }

  lemma {:induction false} PickedUp(trip: Trip, n: nat) returns (o: Route, time: int)
    requires trip.map_ == FACTORY && trip.start == GATEWAY && trip.dir == 1 && n > 0
    ensures ByLegs(trip, Copies(n), false, o, time)
    ensures o.path != [] && o.dirs != [] && End(o) == PICKUP && Facing(o) == 1
  {
    hide ByLegs, Reaches, Cost;
    if n == 1 {
      o, time := FirstPickup(trip);
    } else {
      var a, s := PickedUp(trip, n - 1);
      Stay(LegTask(trip, PICKUP, 1));
      o := AdmissibleNext(trip, Copies(n - 1), a, s, PICKUP, Route([PICKUP], [1]));
      time := s + Cost([1]);
    }
  }

  lemma RoundExists(n: nat) returns (o: Route, time: int)
    requires n > 0
    ensures ByLegs(WallTrip(n), Copies(n) + [STOP_POSITION], false, o, time)
  {
    hide ByLegs, Reaches, Cost;
    PickupIsItem(n);
    var a, s := PickedUp(WallTrip(n), n);
    var b := HomeLeg(Task(FACTORY, PICKUP, 1, true));
    o := AdmissibleNext(WallTrip(n), Copies(n), a, s, STOP_POSITION, b);
    time := s + Cost(b.dirs);
  }

  /** What findPath does for one order, taking a least leg every time, is best among all rounds of
      admissible legs exactly when there is nothing to pick up. */
  lemma LeastLegsBestExactly(n: nat)
    ensures LeastLegsAreBest(n) <==> n == 0
  {
    hide ByLegs;
    if n == 0 {
      forall trip: Trip, stops, o, time |
        IsFactory(trip.map_) && trip.dir in DIRECTIONS && |trip.items| == n && IsOrder(trip.items, stops)
        && ByLegs(trip, stops, false, o, time)
        ensures exists g, s :: ByLegs(trip, stops, true, g, s)
        ensures forall g, s | ByLegs(trip, stops, true, g, s) :: s <= time
      {
        assert stops == [STOP_POSITION];
        BestForOneStop(trip, STOP_POSITION, o, time);
      }
    } else {
      var stops := Copies(n) + [STOP_POSITION];
      ItemsAreOrder(Copies(n));
      var o, time := RoundExists(n);
      NoLeastRound(n);
      assert IsFactory(WallTrip(n).map_) && IsOrder(WallTrip(n).items, stops);
    }
  }
}
